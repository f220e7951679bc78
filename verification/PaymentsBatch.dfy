/** batchPay against pay: exactly when it succeeds, what it stores, and that the order of the items is immaterial. */
module PaymentsBatch {
  import opened Common
  import opened PaymentsModel
  import opened PaymentsSafety

  ghost predicate DistinctCommitments(items: seq<Item>) {
    forall i, j :: 0 <= i < j < |items| ==> items[i].commitment != items[j].commitment
  }

  /** Every item would be accepted on its own, and no commitment occurs twice. */
  ghost predicate Acceptable(chain: Chain, now: nat, oracle: Address, payments: map<Bytes32, Payment>, items: seq<Item>) {
    && (forall item :: item in items ==> Rejection(chain, now, oracle, payments, item).None?)
    && DistinctCommitments(items)
  }

  /** The old payments, and one record for each item. */
  ghost predicate Stores(now: nat, sender: Address, payments: map<Bytes32, Payment>, items: seq<Item>,
                         result: map<Bytes32, Payment>)
  {
    && (forall item :: item in items ==>
          item.commitment in result && result[item.commitment] == Recorded(now, sender, item))
    && (forall c :: (c in result || c in payments) && (forall item :: item in items ==> item.commitment != c) ==>
          c in result && c in payments && result[c] == payments[c])
  }

  /** Once the first item is stored, another is acceptable exactly when it was before and has another commitment. */
  lemma RejectionAfter(chain: Chain, now: nat, oracle: Address, sender: Address,
                       payments: map<Bytes32, Payment>, first: Item, item: Item)
    requires Rejection(chain, now, oracle, payments, first).None?
    ensures Rejection(chain, now, oracle, payments[first.commitment := Recorded(now, sender, first)], item).None?
       <==> Rejection(chain, now, oracle, payments, item).None? && item.commitment != first.commitment
  {
  }

  lemma AcceptableStep(chain: Chain, now: nat, oracle: Address, sender: Address,
                       payments: map<Bytes32, Payment>, items: seq<Item>)
    requires items != []
    ensures Acceptable(chain, now, oracle, payments, items)
       <==> Rejection(chain, now, oracle, payments, items[0]).None?
            && Acceptable(chain, now, oracle, payments[items[0].commitment := Recorded(now, sender, items[0])], items[1..])
  {
    var first, rest := items[0], items[1..];
    assert items == [first] + rest;
    if Rejection(chain, now, oracle, payments, first).None? {
      forall item | item in rest
        ensures Rejection(chain, now, oracle, payments[first.commitment := Recorded(now, sender, first)], item).None?
           <==> Rejection(chain, now, oracle, payments, item).None? && item.commitment != first.commitment
      {
        RejectionAfter(chain, now, oracle, sender, payments, first, item);
      }
      assert DistinctCommitments(items)
        <==> DistinctCommitments(rest) && forall item :: item in rest ==> item.commitment != first.commitment by {
        DistinctStep(items);
      }
    }
  }

  lemma DistinctStep(items: seq<Item>)
    requires items != []
    ensures DistinctCommitments(items)
       <==> DistinctCommitments(items[1..]) && forall item :: item in items[1..] ==> item.commitment != items[0].commitment
  {
    var first, rest := items[0], items[1..];
    assert forall i :: 0 <= i < |rest| ==> rest[i] == items[i + 1];
    if DistinctCommitments(rest) && forall item :: item in rest ==> item.commitment != first.commitment {
      forall i, j | 0 <= i < j < |items| ensures items[i].commitment != items[j].commitment {
        assert items[j] == rest[j - 1];
        if i > 0 { assert items[i] == rest[i - 1]; }
      }
    }
    if DistinctCommitments(items) {
      forall i, j | 0 <= i < j < |rest| ensures rest[i].commitment != rest[j].commitment {
        assert items[i + 1].commitment != items[j + 1].commitment;
      }
    }
  }

  lemma StoresStep(now: nat, sender: Address, payments: map<Bytes32, Payment>, items: seq<Item>, result: map<Bytes32, Payment>)
    requires items != [] && DistinctCommitments(items)
    requires Stores(now, sender, payments[items[0].commitment := Recorded(now, sender, items[0])], items[1..], result)
    ensures Stores(now, sender, payments, items, result)
  {
    DistinctStep(items);
    assert items == [items[0]] + items[1..];
    assert forall item :: item in items <==> item == items[0] || item in items[1..];
  }

  lemma {:induction false} ProcessAllExactly(
    chain: Chain, now: nat, oracle: Address, sender: Address, payments: map<Bytes32, Payment>, items: seq<Item>)
    ensures var r := ProcessAll(chain, now, oracle, sender, payments, items);
            && (r.Stored? <==> Acceptable(chain, now, oracle, payments, items))
            && (r.Stored? ==> Stores(now, sender, payments, items, r.payments))
    decreases items
  {
    if items != [] {
      AcceptableStep(chain, now, oracle, sender, payments, items);
      if Rejection(chain, now, oracle, payments, items[0]).None? {
        var next := payments[items[0].commitment := Recorded(now, sender, items[0])];
        ProcessAllExactly(chain, now, oracle, sender, next, items[1..]);
        var r := ProcessAll(chain, now, oracle, sender, next, items[1..]);
        if r.Stored? { StoresStep(now, sender, payments, items, r.payments); }
      }
    }
  }

  /** batchPay goes through exactly when all of this holds; otherwise it changes nothing. */
  lemma BatchPayExactly(chain: Chain, now: nat, sender: Address, value: nat, batch: Batch, s: State)
    ensures var r := Enter(chain, now, sender, value, BatchPay(batch), s);
            && (r.Returned? <==>
                  && |batch.commitments| > 0 && batch.LengthsMatch()
                  && value == SeqTotal(batch.amounts, Self) < UINT256_LIMIT
                  && Acceptable(chain, now, s.oracle, s.payments, batch.Items()))
            && (!r.Returned? ==> Exec(chain, now, Call(sender, value, BatchPay(batch), [], true), s).state == s)
            && (r.Returned? ==>
                  && Stores(now, sender, s.payments, batch.Items(), r.state.payments)
                  && r.state == s.(payments := r.state.payments, balance := s.balance + value))
  {
    if batch.LengthsMatch() {
      ProcessAllExactly(chain, now, s.oracle, sender, s.payments, batch.Items());
    }
  }

  // ----- batchPay is pay, item after item -----

  function PayCall(sender: Address, item: Item): Action {
    Call(sender, item.amount, Pay(item.commitment, item.service, item.timestamp, item.signature), [], true)
  }

  function PayCalls(sender: Address, items: seq<Item>): seq<Action> {
    if items == [] then [] else [PayCall(sender, items[0])] + PayCalls(sender, items[1..])
  }

  /** Separate calls of pay, each sending its own amount, until one of them reverts. */
  function PayOneByOne(chain: Chain, now: nat, sender: Address, items: seq<Item>, s: State): Entered
    decreases items
  {
    if items == [] then Returned(s)
    else
      var first := items[0];
      match Enter(chain, now, sender, first.amount,
                  Pay(first.commitment, first.service, first.timestamp, first.signature), s)
      case Returned(s') => PayOneByOne(chain, now, sender, items[1..], s')
      case Reverted(error) => Reverted(error)
      case HandedOver(s') => HandedOver(s')
  }

  lemma {:induction false} PaymentsOneByOne(chain: Chain, now: nat, sender: Address, items: seq<Item>, s: State)
    ensures PayOneByOne(chain, now, sender, items, s)
         == EnterPayments(chain, now, sender, SeqTotal(items, AmountOf), items, s)
    decreases items
  {
    if items != [] {
      var first := items[0];
      assert first == Item(first.commitment, first.service, first.amount, first.timestamp, first.signature);
      assert [first][1..] == [];
      if Rejection(chain, now, s.oracle, s.payments, first).None? {
        var next := s.(payments := s.payments[first.commitment := Recorded(now, sender, first)],
                       balance := s.balance + first.amount);
        assert ProcessAll(chain, now, s.oracle, sender, next.payments, []) == Stored(next.payments);
        assert Enter(chain, now, sender, first.amount,
                     Pay(first.commitment, first.service, first.timestamp, first.signature), s) == Returned(next);
        PaymentsOneByOne(chain, now, sender, items[1..], next);
      }
    }
  }

  lemma {:induction false} OneByOneIsARun(chain: Chain, now: nat, sender: Address, items: seq<Item>, s: State)
    requires PayOneByOne(chain, now, sender, items, s).Returned?
    ensures ExecAll(chain, now, PayCalls(sender, items), s).state
         == PayOneByOne(chain, now, sender, items, s).state
    decreases items
  {
    if items != [] {
      var s' := Exec(chain, now, PayCall(sender, items[0]), s).state;
      assert PayCalls(sender, items)[1..] == PayCalls(sender, items[1..]);
      OneByOneIsARun(chain, now, sender, items[1..], s');
    }
  }

  /** Past its own checks, batchPay has the outcome of the pays in order: the same error, or the same final state. */
  lemma BatchPayIsPayInOrder(chain: Chain, now: nat, sender: Address, value: nat, batch: Batch, s: State)
    requires |batch.commitments| > 0 && batch.LengthsMatch()
    requires value == SeqTotal(batch.amounts, Self) < UINT256_LIMIT
    ensures Enter(chain, now, sender, value, BatchPay(batch), s) == PayOneByOne(chain, now, sender, batch.Items(), s)
    ensures Enter(chain, now, sender, value, BatchPay(batch), s).Returned? ==>
              Exec(chain, now, Call(sender, value, BatchPay(batch), [], true), s).state
              == ExecAll(chain, now, PayCalls(sender, batch.Items()), s).state
  {
    ItemsTotal(batch, 0);
    assert batch.Items()[0..] == batch.Items() && batch.amounts[0..] == batch.amounts;
    PaymentsOneByOne(chain, now, sender, batch.Items(), s);
    if Enter(chain, now, sender, value, BatchPay(batch), s).Returned? {
      OneByOneIsARun(chain, now, sender, batch.Items(), s);
    }
  }

  // ----- The order of the items -----

  function HitsOf(commitment: Bytes32): Item -> nat {
    (item: Item) => if item.commitment == commitment then 1 else 0
  }

  lemma {:induction false} HitExists(items: seq<Item>, commitment: Bytes32)
    requires SeqTotal(items, HitsOf(commitment)) > 0
    ensures exists k :: 0 <= k < |items| && items[k].commitment == commitment
  {
    if items[0].commitment != commitment {
      HitExists(items[1..], commitment);
      var k :| 0 <= k < |items[1..]| && items[1..][k].commitment == commitment;
      assert items[k + 1].commitment == commitment;
    }
  }

  lemma {:induction false} DistinctMeansAtMostOneHit(items: seq<Item>, commitment: Bytes32)
    requires DistinctCommitments(items)
    ensures SeqTotal(items, HitsOf(commitment)) <= 1
  {
    if items != [] {
      DistinctMeansAtMostOneHit(items[1..], commitment);
      if SeqTotal(items[1..], HitsOf(commitment)) > 0 {
        HitExists(items[1..], commitment);
      }
    }
  }

  lemma AtMostOneHitMeansDistinct(items: seq<Item>)
    requires forall c :: SeqTotal(items, HitsOf(c)) <= 1
    ensures DistinctCommitments(items)
  {
    forall i, j | 0 <= i < j < |items| ensures items[i].commitment != items[j].commitment {
      var c := items[i].commitment;
      if items[j].commitment == c {
        assert items == items[..j] + items[j..];
        SeqTotalConcat(items[..j], items[j..], HitsOf(c));
        SeqTotalAtLeast(items[..j], HitsOf(c), i);
      }
    }
  }

  lemma DistinctInAnyOrder(items: seq<Item>, shuffled: seq<Item>)
    requires multiset(items) == multiset(shuffled) && DistinctCommitments(items)
    ensures DistinctCommitments(shuffled)
  {
    forall c ensures SeqTotal(shuffled, HitsOf(c)) <= 1 {
      DistinctMeansAtMostOneHit(items, c);
      SeqTotalPermutation(items, shuffled, HitsOf(c));
    }
    AtMostOneHitMeansDistinct(shuffled);
  }

  lemma AcceptableInAnyOrder(chain: Chain, now: nat, oracle: Address, payments: map<Bytes32, Payment>,
                             items: seq<Item>, shuffled: seq<Item>)
    requires multiset(items) == multiset(shuffled) && Acceptable(chain, now, oracle, payments, items)
    ensures Acceptable(chain, now, oracle, payments, shuffled)
  {
    SameMembers(items, shuffled);
    DistinctInAnyOrder(items, shuffled);
  }

  lemma SameMembers(items: seq<Item>, shuffled: seq<Item>)
    requires multiset(items) == multiset(shuffled)
    ensures forall item :: item in items <==> item in shuffled
  {
    assert forall item :: item in items <==> item in multiset(items);
    assert forall item :: item in shuffled <==> item in multiset(shuffled);
  }

  lemma StoresOnlyOneMap(now: nat, sender: Address, payments: map<Bytes32, Payment>, items: seq<Item>, shuffled: seq<Item>,
                         a: map<Bytes32, Payment>, b: map<Bytes32, Payment>)
    requires multiset(items) == multiset(shuffled)
    requires Stores(now, sender, payments, items, a) && Stores(now, sender, payments, shuffled, b)
    ensures a == b
  {
    SameMembers(items, shuffled);
    forall c | c in a || c in b ensures c in a && c in b && a[c] == b[c] {
      if item :| item in items && item.commitment == c {
        assert item in shuffled;
      }
    }
  }

  /** Permuting the items jointly changes neither whether batchPay succeeds nor the state it leaves. */
  lemma BatchOrderIsImmaterial(chain: Chain, now: nat, sender: Address, value: nat, batch: Batch, shuffled: Batch, s: State)
    requires batch.LengthsMatch() && shuffled.LengthsMatch()
    requires multiset(batch.Items()) == multiset(shuffled.Items())
    ensures var r := Enter(chain, now, sender, value, BatchPay(batch), s);
            var r' := Enter(chain, now, sender, value, BatchPay(shuffled), s);
            (r.Returned? <==> r'.Returned?) && (r.Returned? ==> r == r')
  {
    var items, items' := batch.Items(), shuffled.Items();
    assert |items| == |multiset(items)| == |multiset(items')| == |items'|;
    ItemsTotal(batch, 0);
    ItemsTotal(shuffled, 0);
    assert items[0..] == items && batch.amounts[0..] == batch.amounts;
    assert items'[0..] == items' && shuffled.amounts[0..] == shuffled.amounts;
    SeqTotalPermutation(items, items', AmountOf);
    BatchPayExactly(chain, now, sender, value, batch, s);
    BatchPayExactly(chain, now, sender, value, shuffled, s);
    if Acceptable(chain, now, s.oracle, s.payments, items) {
      AcceptableInAnyOrder(chain, now, s.oracle, s.payments, items, items');
    }
    if Acceptable(chain, now, s.oracle, s.payments, items') {
      AcceptableInAnyOrder(chain, now, s.oracle, s.payments, items', items);
    }
    var r := Enter(chain, now, sender, value, BatchPay(batch), s);
    var r' := Enter(chain, now, sender, value, BatchPay(shuffled), s);
    if r.Returned? && r'.Returned? {
      StoresOnlyOneMap(now, sender, s.payments, items, items', r.state.payments, r'.state.payments);
    }
  }
}
