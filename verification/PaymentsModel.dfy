/**
 * The behaviour of the HumanIDPayments contract as functions on values.
 *
 * A transaction is a finite tree of calls.  When a refund or a withdrawal hands
 * control to the recipient, the recipient's code is a sequence of further actions
 * (calls back into the contract, and frames of other contracts), after which it
 * accepts or rejects the money.  A frame that reverts restores the state it was
 * entered with.  Every theorem quantifies over all such trees.
 */
module PaymentsModel {
  import opened Common

  type Address = nat
  type Bytes32 = nat
  type Bytes = seq<bv8>

  const ZERO_ADDRESS: Address := 0
  const UINT256_LIMIT: nat := 0x1_0000000000000000_0000000000000000_0000000000000000_0000000000000000
  const PAYMENT_WINDOW: nat := 365 * 24 * 60 * 60
  const REFUND_WINDOW: nat := 10 * 60

  datatype Payment = Payment(
    commitment: Bytes32,
    service: Bytes32,
    timestamp: nat,
    sender: Address,
    amount: nat,
    refunded: bool)

  /** What the oracle signs.  The two encodings have different lengths, so they never coincide. */
  datatype Message =
    | PaymentMessage(amount: nat, commitment: Bytes32, service: Bytes32, chainId: nat, timestamp: nat)
    | RefundMessage(commitment: Bytes32, chainId: nat, timestamp: nat)

  /** The chain the contract lives on: its id, and signature recovery (None when recovery itself reverts). */
  datatype Chain = Chain(chainId: nat, recover: (Message, Bytes) -> Option<Address>)

  datatype Error =
    | InvalidOracleAddress | PaymentAlreadyExists | InvalidAmount | TimestampInFuture
    | SignatureTooOld | InvalidSignature | PaymentDoesNotExist | AlreadyRefunded
    | TransferFailed | InsufficientBalance | InvalidRecipient | NoBalanceToWithdraw
    | MustSendETH | EmptyBatch | ArrayLengthMismatch | IncorrectTotalAmount
    | MissingRole | NotPayable | ArithmeticPanic | UnrecoverableSignature

  /** One movement of ether other than a payment, in the order it happened. */
  datatype Transfer =
    | Deposited(amount: nat)
    | ForceFed(amount: nat)
    | RefundIssued(commitment: Bytes32, recipient: Address, amount: nat)
    | Withdrawn(recipient: Address, amount: nat)

  /** The storage of the contract, its ether balance, and the history of its transfers. */
  datatype State = State(
    payments: map<Bytes32, Payment>,
    oracle: Address,
    admins: set<Address>,
    balance: nat,
    log: seq<Transfer>)

  datatype Item = Item(commitment: Bytes32, service: Bytes32, amount: nat, timestamp: nat, signature: Bytes)

  datatype Batch = Batch(
    commitments: seq<Bytes32>,
    services: seq<Bytes32>,
    amounts: seq<nat>,
    timestamps: seq<nat>,
    signatures: seq<Bytes>)
  {
    predicate LengthsMatch() {
      |services| == |commitments| && |amounts| == |commitments| &&
      |timestamps| == |commitments| && |signatures| == |commitments|
    }

    function Items(): (items: seq<Item>)
      requires LengthsMatch()
      ensures |items| == |commitments|
    {
      seq(|commitments|, i requires 0 <= i < |commitments| =>
        Item(commitments[i], services[i], amounts[i], timestamps[i], signatures[i]))
    }
  }

  datatype Entry =
    | Pay(commitment: Bytes32, service: Bytes32, timestamp: nat, signature: Bytes)
    | BatchPay(batch: Batch)
    | Refund(commitment: Bytes32, timestamp: nat, signature: Bytes)
    | ForceRefund(commitment: Bytes32)
    | Deposit
    | Receive
    | Withdraw(amount: nat)
    | WithdrawTo(amount: nat, to: Address)
    | WithdrawAll
    | SetOracleAddress(newOracle: Address)
    | ChangeRoles(admins: set<Address>)  // any grant, revocation or renunciation of ADMIN_ROLE

  datatype Action =
    | Call(sender: Address, value: nat, entry: Entry, recipientCode: seq<Action>, accepts: bool)
    | Frame(body: seq<Action>, commits: bool)  // code of another contract
    | ForceFeed(wei: nat)                      // ether that arrives without running any code

  /** How a call gets on before control reaches anyone else. */
  datatype Entered =
    | Reverted(error: Error)
    | Returned(state: State)
    | HandedOver(state: State)

  // ----- Payments -----

  function AmountAt(payments: map<Bytes32, Payment>, commitment: Bytes32): nat {
    if commitment in payments then payments[commitment].amount else 0
  }

  function Rejection(chain: Chain, now: nat, oracle: Address, payments: map<Bytes32, Payment>, item: Item): Option<Error>
  {
    if item.amount == 0 then Some(InvalidAmount)
    else if AmountAt(payments, item.commitment) != 0 then Some(PaymentAlreadyExists)
    else if item.timestamp > now then Some(TimestampInFuture)
    else if now - item.timestamp > PAYMENT_WINDOW then Some(SignatureTooOld)
    else
      var message := PaymentMessage(item.amount, item.commitment, item.service, chain.chainId, item.timestamp);
      match chain.recover(message, item.signature)
      case None => Some(UnrecoverableSignature)
      case Some(signer) => if signer != oracle then Some(InvalidSignature) else None
  }

  function Recorded(now: nat, sender: Address, item: Item): Payment {
    Payment(item.commitment, item.service, now, sender, item.amount, false)
  }

  datatype Processed = Stored(payments: map<Bytes32, Payment>) | Failed(error: Error)

  /** Processing items in order, stopping at the first that is rejected. */
  function ProcessAll(chain: Chain, now: nat, oracle: Address, sender: Address,
                      payments: map<Bytes32, Payment>, items: seq<Item>): Processed
    decreases items
  {
    if items == [] then Stored(payments)
    else
      match Rejection(chain, now, oracle, payments, items[0])
      case Some(error) => Failed(error)
      case None =>
        ProcessAll(chain, now, oracle, sender,
          payments[items[0].commitment := Recorded(now, sender, items[0])], items[1..])
  }

  function EnterPayments(chain: Chain, now: nat, sender: Address, value: nat, items: seq<Item>, s: State): Entered {
    match ProcessAll(chain, now, s.oracle, sender, s.payments, items)
    case Failed(error) => Reverted(error)
    case Stored(payments) => Returned(s.(payments := payments, balance := s.balance + value))
  }

  function EnterBatchPay(chain: Chain, now: nat, sender: Address, value: nat, batch: Batch, s: State): Entered {
    if |batch.commitments| == 0 then Reverted(EmptyBatch)
    else if !batch.LengthsMatch() then Reverted(ArrayLengthMismatch)
    else if SeqTotal(batch.amounts, Self) >= UINT256_LIMIT then Reverted(ArithmeticPanic)
    else if value != SeqTotal(batch.amounts, Self) then Reverted(IncorrectTotalAmount)
    else EnterPayments(chain, now, sender, value, batch.Items(), s)
  }

  // ----- Money going out -----

  function SendRefund(s: State, commitment: Bytes32): Entered
    requires commitment in s.payments
  {
    var payment := s.payments[commitment];
    if payment.amount > s.balance then Reverted(TransferFailed)
    else
      HandedOver(s.(
        payments := s.payments[commitment := payment.(refunded := true)],
        balance := s.balance - payment.amount,
        log := s.log + [RefundIssued(commitment, payment.sender, payment.amount)]))
  }

  function RefundBlocked(s: State, commitment: Bytes32): Option<Error> {
    if AmountAt(s.payments, commitment) == 0 then Some(PaymentDoesNotExist)
    else if s.payments[commitment].refunded then Some(AlreadyRefunded)
    else None
  }

  function RefundAuthorised(chain: Chain, now: nat, s: State, commitment: Bytes32, timestamp: nat, signature: Bytes): Option<Error>
  {
    if timestamp > now then Some(TimestampInFuture)
    else if now - timestamp > REFUND_WINDOW then Some(SignatureTooOld)
    else
      match chain.recover(RefundMessage(commitment, chain.chainId, timestamp), signature)
      case None => Some(UnrecoverableSignature)
      case Some(signer) => if signer != s.oracle then Some(InvalidSignature) else None
  }

  function EnterRefund(chain: Chain, now: nat, commitment: Bytes32, timestamp: nat, signature: Bytes, s: State): Entered {
    match RefundBlocked(s, commitment)
    case Some(error) => Reverted(error)
    case None =>
      match RefundAuthorised(chain, now, s, commitment, timestamp, signature)
      case Some(error) => Reverted(error)
      case None => SendRefund(s, commitment)
  }

  function EnterForceRefund(sender: Address, commitment: Bytes32, s: State): Entered {
    if sender !in s.admins then Reverted(MissingRole)
    else
      match RefundBlocked(s, commitment)
      case Some(error) => Reverted(error)
      case None => SendRefund(s, commitment)
  }

  function SendWithdrawal(s: State, to: Address, amount: nat): Entered {
    if amount > s.balance then Reverted(InsufficientBalance)
    else HandedOver(s.(balance := s.balance - amount, log := s.log + [Withdrawn(to, amount)]))
  }

  function EnterDeposit(value: nat, s: State): Entered {
    Returned(s.(balance := s.balance + value, log := s.log + [Deposited(value)]))
  }

  // ----- Calls -----

  predicate Payable(entry: Entry) {
    entry.Pay? || entry.BatchPay? || entry.Deposit? || entry.Receive?
  }

  function Enter(chain: Chain, now: nat, sender: Address, value: nat, entry: Entry, s: State): Entered {
    if !Payable(entry) && value != 0 then Reverted(NotPayable)
    else
      match entry
      case Pay(commitment, service, timestamp, signature) =>
        EnterPayments(chain, now, sender, value, [Item(commitment, service, value, timestamp, signature)], s)
      case BatchPay(batch) => EnterBatchPay(chain, now, sender, value, batch, s)
      case Refund(commitment, timestamp, signature) => EnterRefund(chain, now, commitment, timestamp, signature, s)
      case ForceRefund(commitment) => EnterForceRefund(sender, commitment, s)
      case Deposit => if value == 0 then Reverted(MustSendETH) else EnterDeposit(value, s)
      case Receive => EnterDeposit(value, s)
      case Withdraw(amount) =>
        if sender !in s.admins then Reverted(MissingRole) else SendWithdrawal(s, sender, amount)
      case WithdrawTo(amount, to) =>
        if sender !in s.admins then Reverted(MissingRole)
        else if to == ZERO_ADDRESS then Reverted(InvalidRecipient)
        else SendWithdrawal(s, to, amount)
      case WithdrawAll =>
        if sender !in s.admins then Reverted(MissingRole)
        else if s.balance == 0 then Reverted(NoBalanceToWithdraw)
        else SendWithdrawal(s, sender, s.balance)
      case SetOracleAddress(newOracle) =>
        if sender !in s.admins then Reverted(MissingRole)
        else if newOracle == ZERO_ADDRESS then Reverted(InvalidOracleAddress)
        else Returned(s.(oracle := newOracle))
      case ChangeRoles(admins) => Returned(s.(admins := admins))
  }

  /** The state an action leaves behind, and every state the contract was in on the way, reverted ones included. */
  datatype Outcome = Outcome(state: State, visited: seq<State>)

  function Exec(chain: Chain, now: nat, action: Action, s: State): Outcome
    decreases action, 0
  {
    match action
    case ForceFeed(wei) =>
      var s' := s.(balance := s.balance + wei, log := s.log + [ForceFed(wei)]);
      Outcome(s', [s'])
    case Frame(body, commits) =>
      var r := ExecAll(chain, now, body, s);
      if commits then r else Outcome(s, r.visited + [s])
    case Call(sender, value, entry, recipientCode, accepts) =>
      match Enter(chain, now, sender, value, entry, s)
      case Reverted(_) => Outcome(s, [s])
      case Returned(s') => Outcome(s', [s'])
      case HandedOver(s') =>
        var r := ExecAll(chain, now, recipientCode, s');
        if accepts then Outcome(r.state, [s'] + r.visited)
        else Outcome(s, [s'] + r.visited + [s])
  }

  function ExecAll(chain: Chain, now: nat, actions: seq<Action>, s: State): Outcome
    decreases actions
  {
    if actions == [] then Outcome(s, [])
    else
      var first := Exec(chain, now, actions[0], s);
      var rest := ExecAll(chain, now, actions[1..], first.state);
      Outcome(rest.state, first.visited + rest.visited)
  }

  datatype Transaction = Transaction(now: nat, action: Action)

  /** A whole life of the contract: transactions one after another, each at its own time. */
  function Run(chain: Chain, transactions: seq<Transaction>, s: State): Outcome {
    if transactions == [] then Outcome(s, [s])
    else
      var first := Exec(chain, transactions[0].now, transactions[0].action, s);
      var rest := Run(chain, transactions[1..], first.state);
      Outcome(rest.state, [s] + first.visited + rest.visited)
  }

  function Deployed(oracle: Address, deployer: Address): State {
    State(map[], oracle, {deployer}, 0, [])
  }
}
