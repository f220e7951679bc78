/**
 * Where everything in the books of HumanIDPayments comes from: at every point of every run, each payment, each
 * movement of ether and the oracle itself go back to a call that was entitled to make it when it was made.
 */
module PaymentsHistory {
  import opened Common
  import opened PaymentsModel
  import opened PaymentsExact

  /** A call of the contract, and the state it met. */
  datatype Made = Made(now: nat, sender: Address, value: nat, entry: Entry, met: State)

  /** The calls an action makes, nested ones included. */
  function CallsMade(chain: Chain, now: nat, action: Action, s: State): set<Made>
    decreases action, 0
  {
    match action
    case ForceFeed(_) => {}
    case Frame(body, _) => AllCallsMade(chain, now, body, s)
    case Call(sender, value, entry, recipientCode, _) =>
      var r := Enter(chain, now, sender, value, entry, s);
      {Made(now, sender, value, entry, s)} +
      if r.HandedOver? then AllCallsMade(chain, now, recipientCode, r.state) else {}
  }

  function AllCallsMade(chain: Chain, now: nat, actions: seq<Action>, s: State): set<Made>
    decreases actions
  {
    if actions == [] then {}
    else CallsMade(chain, now, actions[0], s)
         + AllCallsMade(chain, now, actions[1..], Exec(chain, now, actions[0], s).state)
  }

  function RunCallsMade(chain: Chain, transactions: seq<Transaction>, s: State): set<Made> {
    if transactions == [] then {}
    else
      var first := transactions[0];
      CallsMade(chain, first.now, first.action, s)
      + RunCallsMade(chain, transactions[1..], Exec(chain, first.now, first.action, s).state)
  }

  // ----- Entitled calls -----

  /** The call paid for p, whole or as an item of a batch, with the signature of the oracle of that moment. */
  ghost predicate PaidFor(chain: Chain, m: Made, p: Payment) {
    && p.sender == m.sender && p.timestamp == m.now && p.amount > 0
    && match m.entry
       case Pay(commitment, service, timestamp, signature) =>
         && p.commitment == commitment && p.service == service && p.amount == m.value
         && timestamp <= m.now <= timestamp + 31536000
         && chain.recover(PaymentMessage(m.value, commitment, service, chain.chainId, timestamp), signature)
            == Some(m.met.oracle)
       case BatchPay(batch) => SameLengths(batch) && exists i :: PaidForItem(chain, m, batch, i, p)
       case _ => false
  }

  ghost predicate PaidForItem(chain: Chain, m: Made, batch: Batch, i: nat, p: Payment)
    requires SameLengths(batch)
  {
    && i < |batch.commitments| && ItemAccepted(chain, m.now, m.met, batch, i)
    && p.commitment == batch.commitments[i] && p.service == batch.services[i] && p.amount == batch.amounts[i]
  }

  /** The oracle of that moment authorised the refund, at most ten minutes before, or an administrator forced it. */
  ghost predicate MayRefund(chain: Chain, m: Made, commitment: Bytes32) {
    match m.entry
    case Refund(c, timestamp, signature) =>
      && c == commitment && timestamp <= m.now <= timestamp + 600
      && chain.recover(RefundMessage(c, chain.chainId, timestamp), signature) == Some(m.met.oracle)
    case ForceRefund(c) => c == commitment && m.sender in m.met.admins
    case _ => false
  }

  ghost predicate MayWithdraw(m: Made, to: Address, amount: nat) {
    && m.sender in m.met.admins && amount <= m.met.balance
    && match m.entry
       case Withdraw(a) => a == amount && to == m.sender
       case WithdrawTo(a, t) => a == amount && t == to && to != 0
       case WithdrawAll => amount == m.met.balance && to == m.sender
       case _ => false
  }

  /** The call was entitled to make the transfer, in exactly this amount to exactly this recipient. */
  ghost predicate Caused(chain: Chain, m: Made, t: Transfer) {
    match t
    case Deposited(amount) => (m.entry.Deposit? || m.entry.Receive?) && m.value == amount
    case RefundIssued(commitment, recipient, amount) =>
      && MayRefund(chain, m, commitment) && Refundable(m.met, commitment)
      && recipient == m.met.payments[commitment].sender && amount == m.met.payments[commitment].amount
    case Withdrawn(recipient, amount) => MayWithdraw(m, recipient, amount)
    case ForceFed(_) => false
  }

  ghost predicate ChoseOracle(m: Made, oracle: Address) {
    m.entry == SetOracleAddress(oracle) && oracle != 0 && m.sender in m.met.admins
  }

  // ----- Everything goes back to an entitled call -----

  ghost predicate PaymentExplained(chain: Chain, made: set<Made>, p: Payment) {
    exists m :: m in made && PaidFor(chain, m, p)
  }

  ghost predicate TransferExplained(chain: Chain, made: set<Made>, t: Transfer) {
    t.ForceFed? || exists m :: m in made && Caused(chain, m, t)
  }

  ghost predicate OracleExplained(made: set<Made>, first: Address, oracle: Address) {
    oracle == first || exists m :: m in made && ChoseOracle(m, oracle)
  }

  ghost predicate Explained(chain: Chain, first: Address, made: set<Made>, s: State) {
    && (forall c :: c in s.payments ==> s.payments[c].commitment == c && PaymentExplained(chain, made, s.payments[c]))
    && (forall t :: t in s.log ==> TransferExplained(chain, made, t))
    && OracleExplained(made, first, s.oracle)
  }

  lemma ExplainedByMore(chain: Chain, first: Address, made: set<Made>, more: set<Made>, s: State)
    requires Explained(chain, first, made, s) && made <= more
    ensures Explained(chain, first, more, s)
  {
    forall c | c in s.payments ensures PaymentExplained(chain, more, s.payments[c]) {
      assert PaymentExplained(chain, made, s.payments[c]);
    }
    forall t | t in s.log ensures TransferExplained(chain, more, t) {
      assert TransferExplained(chain, made, t);
    }
  }

  lemma TransferAdded(chain: Chain, first: Address, m: Made, balance: nat, t: Transfer, made: set<Made>)
    requires Explained(chain, first, made, m.met) && m in made && Caused(chain, m, t)
    ensures Explained(chain, first, made, m.met.(balance := balance, log := m.met.log + [t]))
  {
    assert TransferExplained(chain, made, t);
  }

  lemma PayExplained(chain: Chain, first: Address, m: Made, made: set<Made>)
    requires Explained(chain, first, made, m.met) && m in made && m.entry.Pay?
    ensures var r := Enter(chain, m.now, m.sender, m.value, m.entry, m.met);
            r.Returned? ==> Explained(chain, first, made, r.state)
  {
    var s, c := m.met, m.entry.commitment;
    PayExactly(chain, m.now, m.sender, m.value, c, m.entry.service, m.entry.timestamp, m.entry.signature, s);
    var r := Enter(chain, m.now, m.sender, m.value, m.entry, s);
    if r.Returned? {
      assert PaidFor(chain, m, r.state.payments[c]);
      assert forall d :: d in r.state.payments && d != c ==> d in s.payments;
    }
  }

  lemma BatchPayExplained(chain: Chain, first: Address, m: Made, made: set<Made>)
    requires Explained(chain, first, made, m.met) && m in made && m.entry.BatchPay?
    ensures var r := Enter(chain, m.now, m.sender, m.value, m.entry, m.met);
            r.Returned? ==> Explained(chain, first, made, r.state)
  {
    var s, batch := m.met, m.entry.batch;
    BatchItemsExactly(chain, m.now, m.sender, m.value, batch, s);
    var r := Enter(chain, m.now, m.sender, m.value, m.entry, s);
    if r.Returned? {
      forall c | c in r.state.payments
        ensures r.state.payments[c].commitment == c && PaymentExplained(chain, made, r.state.payments[c])
      {
        if c in batch.commitments {
          var i :| 0 <= i < |batch.commitments| && batch.commitments[i] == c;
          assert ItemRecorded(m.now, m.sender, batch, i, r.state.payments);
          assert PaidForItem(chain, m, batch, i, r.state.payments[c]);
          assert PaidFor(chain, m, r.state.payments[c]);
        } else {
          assert r.state.payments[c] == s.payments[c];
        }
      }
    }
  }

  /** Marking a payment as refunded leaves who paid for it as it was. */
  lemma RefundExplained(chain: Chain, first: Address, m: Made, made: set<Made>, commitment: Bytes32, s': State)
    requires Explained(chain, first, made, m.met) && m in made
    requires Refundable(m.met, commitment) && RefundSent(m.met, commitment, s') && MayRefund(chain, m, commitment)
    ensures Explained(chain, first, made, s')
  {
    var s := m.met;
    forall c | c in s'.payments ensures s'.payments[c].commitment == c && PaymentExplained(chain, made, s'.payments[c]) {
      assert PaymentExplained(chain, made, s.payments[c]);
      var payer :| payer in made && PaidFor(chain, payer, s.payments[c]);
      PaidForEitherWay(chain, payer, s.payments[c], s'.payments[c]);
    }
    var issued := RefundIssued(commitment, s.payments[commitment].sender, s.payments[commitment].amount);
    assert Caused(chain, m, issued);
    assert TransferExplained(chain, made, issued);
  }

  lemma PaidForEitherWay(chain: Chain, m: Made, p: Payment, q: Payment)
    requires PaidFor(chain, m, p) && q == p.(refunded := q.refunded)
    ensures PaidFor(chain, m, q)
  {
    if m.entry.BatchPay? {
      var i :| PaidForItem(chain, m, m.entry.batch, i, p);
      assert PaidForItem(chain, m, m.entry.batch, i, q);
    }
  }

  lemma WithdrawalExplained(chain: Chain, first: Address, m: Made, made: set<Made>)
    requires Explained(chain, first, made, m.met) && m in made
    requires m.entry.Withdraw? || m.entry.WithdrawTo? || m.entry.WithdrawAll?
    ensures var r := Enter(chain, m.now, m.sender, m.value, m.entry, m.met);
            !r.Reverted? ==> Explained(chain, first, made, r.state)
  {
    var s := m.met;
    var amount := if m.entry.WithdrawAll? then s.balance else m.entry.amount;
    var to := if m.entry.WithdrawTo? then m.entry.to else m.sender;
    WithdrawalsExactly(chain, m.now, m.sender, m.value, amount, to, s);
    var r := Enter(chain, m.now, m.sender, m.value, m.entry, s);
    if !r.Reverted? {
      assert WithdrawalSent(s, to, amount, r.state);
      TransferAdded(chain, first, m, r.state.balance, Withdrawn(to, amount), made);
    }
  }

  lemma EnterExplained(chain: Chain, first: Address, m: Made, made: set<Made>)
    requires Explained(chain, first, made, m.met) && m in made
    ensures var r := Enter(chain, m.now, m.sender, m.value, m.entry, m.met);
            !r.Reverted? ==> Explained(chain, first, made, r.state)
  {
    var s := m.met;
    var r := Enter(chain, m.now, m.sender, m.value, m.entry, s);
    match m.entry
    case Pay(_, _, _, _) => PayExplained(chain, first, m, made);
    case BatchPay(batch) =>
      BatchItemsExactly(chain, m.now, m.sender, m.value, batch, s);
      BatchPayExplained(chain, first, m, made);
    case Refund(c, timestamp, signature) =>
      RefundExactly(chain, m.now, m.sender, m.value, c, timestamp, signature, s);
      if r.HandedOver? { RefundExplained(chain, first, m, made, c, r.state); }
    case ForceRefund(c) =>
      ForceRefundExactly(chain, m.now, m.sender, m.value, c, s);
      if r.HandedOver? { RefundExplained(chain, first, m, made, c, r.state); }
    case Deposit =>
      DepositsExactly(chain, m.now, m.sender, m.value, s);
      TransferAdded(chain, first, m, s.balance + m.value, Deposited(m.value), made);
    case Receive =>
      DepositsExactly(chain, m.now, m.sender, m.value, s);
      TransferAdded(chain, first, m, s.balance + m.value, Deposited(m.value), made);
    case Withdraw(_) => WithdrawalExplained(chain, first, m, made);
    case WithdrawTo(_, _) => WithdrawalExplained(chain, first, m, made);
    case WithdrawAll => WithdrawalExplained(chain, first, m, made);
    case SetOracleAddress(newOracle) =>
      SetOracleExactly(chain, m.now, m.sender, m.value, newOracle, s);
      assert r.Returned? ==> ChoseOracle(m, newOracle);
    case ChangeRoles(_) =>
  }

  ghost predicate AllExplained(chain: Chain, first: Address, made: set<Made>, points: seq<State>) {
    forall point :: point in points ==> Explained(chain, first, made, point)
  }

  lemma AllExplainedByMore(chain: Chain, first: Address, made: set<Made>, more: set<Made>, points: seq<State>)
    requires AllExplained(chain, first, made, points) && made <= more
    ensures AllExplained(chain, first, more, points)
  {
    forall point | point in points ensures Explained(chain, first, more, point) {
      ExplainedByMore(chain, first, made, more, point);
    }
  }

  lemma {:induction false} ExecExplained(chain: Chain, now: nat, first: Address, made: set<Made>, action: Action, s: State)
    requires Explained(chain, first, made, s)
    ensures var r, all := Exec(chain, now, action, s), made + CallsMade(chain, now, action, s);
            Explained(chain, first, all, r.state) && AllExplained(chain, first, all, r.visited)
    decreases action, 0
  {
    var all := made + CallsMade(chain, now, action, s);
    ExplainedByMore(chain, first, made, all, s);
    match action
    case ForceFeed(wei) =>
      assert TransferExplained(chain, all, ForceFed(wei));
    case Frame(body, _) => ExecAllExplained(chain, now, first, made, body, s);
    case Call(sender, value, entry, recipientCode, _) =>
      var m := Made(now, sender, value, entry, s);
      ExplainedByMore(chain, first, made, made + {m}, s);
      EnterExplained(chain, first, m, made + {m});
      var entered := Enter(chain, now, sender, value, entry, s);
      if entered.HandedOver? {
        ExecAllExplained(chain, now, first, made + {m}, recipientCode, entered.state);
        assert all == made + {m} + AllCallsMade(chain, now, recipientCode, entered.state);
        ExplainedByMore(chain, first, made + {m}, all, entered.state);
      } else {
        assert all == made + {m};
      }
  }

  lemma {:induction false} ExecAllExplained(chain: Chain, now: nat, first: Address, made: set<Made>,
                                            actions: seq<Action>, s: State)
    requires Explained(chain, first, made, s)
    ensures var r, all := ExecAll(chain, now, actions, s), made + AllCallsMade(chain, now, actions, s);
            Explained(chain, first, all, r.state) && AllExplained(chain, first, all, r.visited)
    decreases actions
  {
    if actions == [] {
      assert made + {} == made;
    } else {
      var step := Exec(chain, now, actions[0], s);
      var some := made + CallsMade(chain, now, actions[0], s);
      ExecExplained(chain, now, first, made, actions[0], s);
      ExecAllExplained(chain, now, first, some, actions[1..], step.state);
      var all := made + AllCallsMade(chain, now, actions, s);
      assert all == some + AllCallsMade(chain, now, actions[1..], step.state);
      AllExplainedByMore(chain, first, some, all, step.visited);
    }
  }

  lemma {:induction false} RunExplained(chain: Chain, first: Address, made: set<Made>, transactions: seq<Transaction>, s: State)
    requires Explained(chain, first, made, s)
    ensures AllExplained(chain, first, made + RunCallsMade(chain, transactions, s), Run(chain, transactions, s).visited)
    decreases transactions
  {
    var all := made + RunCallsMade(chain, transactions, s);
    ExplainedByMore(chain, first, made, all, s);
    if transactions != [] {
      var now, action := transactions[0].now, transactions[0].action;
      var step, some := Exec(chain, now, action, s), made + CallsMade(chain, now, action, s);
      ExecExplained(chain, now, first, made, action, s);
      RunExplained(chain, first, some, transactions[1..], step.state);
      assert all == some + RunCallsMade(chain, transactions[1..], step.state);
      AllExplainedByMore(chain, first, some, all, step.visited);
    }
  }

  /**
   * The main result.  At every point of every run from deployment, nested calls and reverted frames included: every
   * recorded payment was paid for by its sender with the signature of the oracle of that moment; every refund was
   * signed by the oracle of its moment at most ten minutes before or forced by an administrator; every withdrawal was
   * made by an administrator; and the oracle is the one deployed with or was named by an administrator.
   */
  lemma EverythingIsEntitled(chain: Chain, oracle: Address, deployer: Address, transactions: seq<Transaction>, point: State)
    requires point in Run(chain, transactions, Deployed(oracle, deployer)).visited
    ensures var made := RunCallsMade(chain, transactions, Deployed(oracle, deployer));
            && (forall c :: c in point.payments ==> exists m :: m in made && PaidFor(chain, m, point.payments[c]))
            && (forall t :: t in point.log && !t.ForceFed? ==> exists m :: m in made && Caused(chain, m, t))
            && (point.oracle == oracle || exists m :: m in made && ChoseOracle(m, point.oracle))
  {
    var s := Deployed(oracle, deployer);
    RunExplained(chain, oracle, {}, transactions, s);
    assert {} + RunCallsMade(chain, transactions, s) == RunCallsMade(chain, transactions, s);
    forall c | c in point.payments
      ensures exists m :: m in RunCallsMade(chain, transactions, s) && PaidFor(chain, m, point.payments[c])
    {
      assert PaymentExplained(chain, RunCallsMade(chain, transactions, s), point.payments[c]);
    }
    forall t | t in point.log && !t.ForceFed?
      ensures exists m :: m in RunCallsMade(chain, transactions, s) && Caused(chain, m, t)
    {
      assert TransferExplained(chain, RunCallsMade(chain, transactions, s), t);
    }
  }
}
