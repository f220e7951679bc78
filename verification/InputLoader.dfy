/** How the C++ witness calculator takes its inputs: hash lookup, assignment flags, and the single run of the circuit. */
module InputModel {
  import opened Common

  datatype Entry = Entry(hash: nat, signalid: nat, signalsize: nat)

  /** The circuit's data: the input hash map, where its main inputs start among all signals, and how many there are. */
  datatype Circuit = Circuit(table: seq<Entry>, inputStart: nat, inputNo: nat, totalNo: nat)

  /** The entries of the map lie within the main inputs. */
  predicate Good(c: Circuit) {
    && |c.table| > 0 && c.inputStart + c.inputNo <= c.totalNo && c.totalNo > 0
    && forall p :: 0 <= p < |c.table| && c.table[p].signalsize > 0 ==>
         c.inputStart <= c.table[p].signalid && c.table[p].signalid + c.table[p].signalsize <= c.inputStart + c.inputNo
  }

  // ----- The hash map -----

  /** What a lookup comes to; OutOfBounds is the read past the end of the map. */
  datatype Lookup = Found(pos: nat) | NotFound | OutOfBounds

  /** The slot d places after start, going round. */
  function Slot(n: nat, start: nat, d: nat): (pos: nat)
    requires start < n && d < n
    ensures pos < n
  {
    if start + d < n then start + d else start + d - n
  }

  /** The probing loop from the d-th slot on. */
  function Probe(table: seq<Entry>, h: nat, start: nat, d: nat): Lookup
    requires start < |table| && 0 < d <= |table|
    decreases |table| - d
  {
    if d == |table| then NotFound
    else
      var pos := Slot(|table|, start, d);
      if table[pos].hash == h then Found(pos)
      else if table[pos].hash == 0 then NotFound
      else Probe(table, h, start, d + 1)
  }

  function Find(table: seq<Entry>, h: nat): Lookup
    requires |table| > 0
  {
    var start := h % |table|;
    if table[start].hash == h then Found(start)
    else if start + 1 == |table| then OutOfBounds
    else Probe(table, h, start, 1)
  }

  /** The d-th slot of the round holds h, and no slot before it holds h or stops the search. */
  predicate StoredAt(table: seq<Entry>, h: nat, d: nat)
    requires |table| > 0
  {
    var n, start := |table|, h % |table|;
    && d < n && table[Slot(n, start, d)].hash == h
    && (d > 0 ==> table[start].hash != h)
    && forall e :: 1 <= e < d ==> table[Slot(n, start, e)].hash != h && table[Slot(n, start, e)].hash != 0
  }

  lemma {:induction false} ProbeExactly(table: seq<Entry>, h: nat, d: nat)
    requires |table| > 0 && 0 < d <= |table|
    requires var n, start := |table|, h % |table|;
             table[start].hash != h
             && forall e :: 1 <= e < d ==> table[Slot(n, start, e)].hash != h && table[Slot(n, start, e)].hash != 0
    ensures var r := Probe(table, h, h % |table|, d);
            && !r.OutOfBounds?
            && (r.Found? <==> exists e :: StoredAt(table, h, e))
            && (forall e :: StoredAt(table, h, e) ==> r == Found(Slot(|table|, h % |table|, e)))
    decreases |table| - d
  {
    if d < |table| {
      var pos := Slot(|table|, h % |table|, d);
      if table[pos].hash == h {
        assert StoredAt(table, h, d);
      } else if table[pos].hash != 0 {
        ProbeExactly(table, h, d + 1);
      }
    }
  }

  /**
   * A lookup reads past the end of the map exactly when the name hashes to the last slot and is not stored there;
   * otherwise it finds the name exactly when it is stored within reach of its first slot.
   */
  lemma FindExactly(table: seq<Entry>, h: nat)
    requires |table| > 0
    ensures Find(table, h).OutOfBounds? <==> h % |table| == |table| - 1 && table[|table| - 1].hash != h
    ensures !Find(table, h).OutOfBounds? ==> (Find(table, h).Found? <==> exists d :: StoredAt(table, h, d))
    ensures !Find(table, h).OutOfBounds? ==>
              forall d :: StoredAt(table, h, d) ==> Find(table, h) == Found(Slot(|table|, h % |table|, d))
  {
    var start := h % |table|;
    if table[start].hash == h {
      assert StoredAt(table, h, 0);
    } else if start + 1 < |table| {
      ProbeExactly(table, h, 1);
    }
  }

  // ----- Setting inputs -----

  /** The flags, the counter, the signal values, and the values every run of the circuit has seen. */
  datatype State = State(flags: seq<bool>, counter: nat, values: seq<nat>, runs: seq<seq<nat>>)

  datatype SetCall = SetCall(h: nat, i: nat, val: nat)

  function Fresh(c: Circuit, values: seq<nat>): State {
    State(seq(c.inputNo, _ => false), c.inputNo, values, [])
  }

  ghost predicate Fits(c: Circuit, s: State) {
    |s.flags| == c.inputNo && |s.values| == c.totalNo
  }

  /** The signal a call sets. */
  function Target(c: Circuit, call: SetCall): Option<nat>
    requires Good(c)
  {
    match Find(c.table, call.h)
    case Found(pos) =>
      FindInTable(c.table, call.h);
      if call.i >= c.table[pos].signalsize then None else Some(c.table[pos].signalid + call.i)
    case NotFound => None
    case OutOfBounds => None
  }

  lemma {:induction false} ProbeInTable(table: seq<Entry>, h: nat, start: nat, d: nat)
    requires start < |table| && 0 < d <= |table|
    ensures Probe(table, h, start, d).Found? ==> Probe(table, h, start, d).pos < |table|
    decreases |table| - d
  {
    if d < |table| { ProbeInTable(table, h, start, d + 1); }
  }

  lemma FindInTable(table: seq<Entry>, h: nat)
    requires |table| > 0
    ensures Find(table, h).Found? ==> Find(table, h).pos < |table|
  {
    if h % |table| + 1 < |table| { ProbeInTable(table, h, h % |table|, 1); }
  }

  lemma TargetIsInput(c: Circuit, call: SetCall)
    requires Good(c)
    ensures Target(c, call).Some? ==> c.inputStart <= Target(c, call).value < c.inputStart + c.inputNo
  {
    FindInTable(c.table, call.h);
  }

  function RunIfComplete(s: State): State {
    if s.counter == 0 then s.(runs := s.runs + [s.values]) else s
  }

  /** One call; None when the program aborts. */
  function SetInput(c: Circuit, s: State, call: SetCall): (r: Option<State>)
    requires Good(c) && Fits(c, s)
    ensures r.Some? ==> Fits(c, r.value)
  {
    if s.counter == 0 then None
    else
      match Target(c, call)
      case None => None
      case Some(si) =>
        TargetIsInput(c, call);
        if s.flags[si - c.inputStart] then None
        else
          Some(RunIfComplete(s.(
            flags := s.flags[si - c.inputStart := true],
            counter := s.counter - 1,
            values := s.values[si := call.val])))
  }

  function Run(c: Circuit, calls: seq<SetCall>, values: seq<nat>): (r: Option<State>)
    requires Good(c) && |values| == c.totalNo
    ensures r.Some? ==> Fits(c, r.value)
  {
    if calls == [] then Some(Fresh(c, values))
    else
      match Run(c, calls[..|calls| - 1], values)
      case None => None
      case Some(s) => SetInput(c, s, calls[|calls| - 1])
  }

  function CountUnset(flags: seq<bool>): nat {
    if flags == [] then 0 else (if flags[0] then 0 else 1) + CountUnset(flags[1..])
  }

  lemma {:induction false} CountAfterSet(flags: seq<bool>, k: nat)
    requires k < |flags| && !flags[k]
    ensures CountUnset(flags[k := true]) == CountUnset(flags) - 1
  {
    if k == 0 {
      assert flags[0 := true][1..] == flags[1..];
    } else {
      assert flags[k := true][1..] == flags[1..][k - 1 := true];
      CountAfterSet(flags[1..], k - 1);
    }
  }

  lemma {:induction false} CountAllUnset(n: nat)
    ensures CountUnset(seq(n, _ => false)) == n
  {
    if n > 0 {
      assert seq(n, _ => false)[1..] == seq(n - 1, _ => false);
      CountAllUnset(n - 1);
    }
  }

  lemma {:induction false} NoneUnset(flags: seq<bool>, k: nat)
    requires CountUnset(flags) == 0 && k < |flags|
    ensures flags[k]
  {
    if k > 0 { NoneUnset(flags[1..], k - 1); }
  }

  /** The calls hit signals of the map, each a different one. */
  ghost predicate DistinctTargets(c: Circuit, calls: seq<SetCall>)
    requires Good(c)
  {
    && (forall k :: 0 <= k < |calls| ==> Target(c, calls[k]).Some?)
    && (forall j, k :: 0 <= j < k < |calls| ==> Target(c, calls[j]) != Target(c, calls[k]))
  }

  ghost predicate SetByCall(c: Circuit, calls: seq<SetCall>, si: nat)
    requires Good(c)
  {
    exists k :: 0 <= k < |calls| && Target(c, calls[k]) == Some(si)
  }

  /** The signals hold what the calls gave them, the others what they held before. */
  ghost predicate Holds(c: Circuit, calls: seq<SetCall>, before: seq<nat>, values: seq<nat>)
    requires Good(c) && |before| == |values| == c.totalNo
  {
    && (forall k :: 0 <= k < |calls| && Target(c, calls[k]).Some? && Target(c, calls[k]).value < |values| ==>
          values[Target(c, calls[k]).value] == calls[k].val)
    && (forall si :: 0 <= si < |values| && !SetByCall(c, calls, si) ==> values[si] == before[si])
  }

  /** The flags are up for the signals the calls set, and for no others. */
  ghost predicate FlagsSay(c: Circuit, calls: seq<SetCall>, flags: seq<bool>)
    requires Good(c) && |flags| == c.inputNo
  {
    forall k :: 0 <= k < c.inputNo ==> (flags[k] <==> SetByCall(c, calls, c.inputStart + k))
  }

  ghost predicate Loaded(c: Circuit, calls: seq<SetCall>, before: seq<nat>, s: State)
    requires Good(c) && Fits(c, s) && |before| == c.totalNo
  {
    && s.counter == CountUnset(s.flags) == c.inputNo - |calls|
    && FlagsSay(c, calls, s.flags)
    && Holds(c, calls, before, s.values)
    && s.runs == if c.inputNo == |calls| > 0 then [s.values] else []
  }

  lemma SetByOneMore(c: Circuit, calls: seq<SetCall>, call: SetCall, si: nat)
    requires Good(c)
    ensures SetByCall(c, calls + [call], si) <==> SetByCall(c, calls, si) || Target(c, call) == Some(si)
  {
    var all := calls + [call];
    if SetByCall(c, calls, si) {
      var k :| 0 <= k < |calls| && Target(c, calls[k]) == Some(si);
      assert all[k] == calls[k];
    }
    if Target(c, call) == Some(si) {
      assert all[|calls|] == call;
    }
  }

  lemma OneMoreTarget(c: Circuit, calls: seq<SetCall>, call: SetCall)
    requires Good(c) && DistinctTargets(c, calls)
    ensures DistinctTargets(c, calls + [call])
            <==> Target(c, call).Some? && !SetByCall(c, calls, Target(c, call).value)
  {
    var all := calls + [call];
    assert all[|calls|] == call;
    assert forall k :: 0 <= k < |calls| ==> all[k] == calls[k];
  }

  /** Whether one more call goes through. */
  lemma OneMoreGoesThrough(c: Circuit, calls: seq<SetCall>, call: SetCall, values: seq<nat>, s: State)
    requires Good(c) && Fits(c, s) && |values| == c.totalNo && Loaded(c, calls, values, s) && DistinctTargets(c, calls)
    ensures SetInput(c, s, call).Some? <==> DistinctTargets(c, calls + [call])
  {
    TargetIsInput(c, call);
    OneMoreTarget(c, calls, call);
    if Target(c, call).Some? { FlagTells(c, calls, values, s, Target(c, call).value); }
  }

  /** A signal not set yet has its flag down, and then the counter is not yet zero. */
  lemma FlagTells(c: Circuit, calls: seq<SetCall>, values: seq<nat>, s: State, si: nat)
    requires Good(c) && Fits(c, s) && |values| == c.totalNo && Loaded(c, calls, values, s)
    requires c.inputStart <= si < c.inputStart + c.inputNo
    ensures s.flags[si - c.inputStart] <==> SetByCall(c, calls, si)
    ensures !SetByCall(c, calls, si) ==> s.counter > 0
  {
    var k := si - c.inputStart;
    assert s.flags[k] <==> SetByCall(c, calls, c.inputStart + k);
    if !s.flags[k] { CountAfterSet(s.flags, k); }
  }

  lemma OneMoreHolds(c: Circuit, calls: seq<SetCall>, call: SetCall, before: seq<nat>, values: seq<nat>)
    requires Good(c) && |before| == |values| == c.totalNo && Holds(c, calls, before, values)
    requires Target(c, call).Some? && Target(c, call).value < c.totalNo && !SetByCall(c, calls, Target(c, call).value)
    ensures Holds(c, calls + [call], before, values[Target(c, call).value := call.val])
  {
    var all, si := calls + [call], Target(c, call).value;
    var after := values[si := call.val];
    forall k | 0 <= k < |all| && Target(c, all[k]).Some? && Target(c, all[k]).value < |after|
      ensures after[Target(c, all[k]).value] == all[k].val
    {
      if k < |calls| {
        assert all[k] == calls[k];
        assert Target(c, calls[k]) != Some(si);
      }
    }
    forall sj | 0 <= sj < |after| && !SetByCall(c, all, sj) ensures after[sj] == before[sj] {
      SetByOneMore(c, calls, call, sj);
    }
  }

  lemma OneMoreFlag(c: Circuit, calls: seq<SetCall>, call: SetCall, flags: seq<bool>)
    requires Good(c) && |flags| == c.inputNo && FlagsSay(c, calls, flags)
    requires Target(c, call).Some? && c.inputStart <= Target(c, call).value < c.inputStart + c.inputNo
    ensures FlagsSay(c, calls + [call], flags[Target(c, call).value - c.inputStart := true])
  {
    var after := flags[Target(c, call).value - c.inputStart := true];
    forall j | 0 <= j < c.inputNo ensures after[j] <==> SetByCall(c, calls + [call], c.inputStart + j) {
      SetByOneMore(c, calls, call, c.inputStart + j);
    }
  }

  /** What one more call leaves. */
  lemma OneMoreLoaded(c: Circuit, calls: seq<SetCall>, call: SetCall, values: seq<nat>, s: State)
    requires Good(c) && Fits(c, s) && |values| == c.totalNo && Loaded(c, calls, values, s) && DistinctTargets(c, calls)
    requires SetInput(c, s, call).Some?
    ensures Loaded(c, calls + [call], values, SetInput(c, s, call).value)
  {
    TargetIsInput(c, call);
    var k := Target(c, call).value - c.inputStart;
    CountAfterSet(s.flags, k);
    assert !SetByCall(c, calls, c.inputStart + k);
    OneMoreHolds(c, calls, call, values, s.values);
    OneMoreFlag(c, calls, call, s.flags);
  }

  lemma TargetsOfPrefix(c: Circuit, calls: seq<SetCall>, n: nat)
    requires Good(c) && n <= |calls| && DistinctTargets(c, calls)
    ensures DistinctTargets(c, calls[..n])
  {
  }

  /**
   * The main result.  A sequence of calls goes through without an abort exactly when it hits signals of the map,
   * no signal twice.  Then the counter is the number of unset flags, the flags say which
   * signals were set, every value is in its place, and the circuit has run exactly once if the last of the calls set
   * the last input, seeing all these values, and not at all otherwise.
   */
  lemma {:induction false} LoadingExactly(c: Circuit, calls: seq<SetCall>, values: seq<nat>)
    requires Good(c) && |values| == c.totalNo
    ensures var r := Run(c, calls, values);
            && (r.Some? <==> DistinctTargets(c, calls))
            && (r.Some? ==> Loaded(c, calls, values, r.value))
  {
    if calls == [] {
      CountAllUnset(c.inputNo);
    } else {
      var n := |calls| - 1;
      LoadingExactly(c, calls[..n], values);
      assert calls == calls[..n] + [calls[n]];
      if DistinctTargets(c, calls) { TargetsOfPrefix(c, calls, n); }
      var before := Run(c, calls[..n], values);
      if before.Some? {
        OneMoreGoesThrough(c, calls[..n], calls[n], values, before.value);
        if SetInput(c, before.value, calls[n]).Some? { OneMoreLoaded(c, calls[..n], calls[n], values, before.value); }
      }
    }
  }

  lemma {:induction false} AbortIsFinal(c: Circuit, calls: seq<SetCall>, n: nat, values: seq<nat>)
    requires Good(c) && |values| == c.totalNo && n <= |calls| && Run(c, calls[..n], values).None?
    ensures Run(c, calls, values).None?
  {
    if n < |calls| {
      assert calls[..|calls| - 1][..n] == calls[..n];
      AbortIsFinal(c, calls[..|calls| - 1], n, values);
    } else {
      assert calls[..n] == calls;
    }
  }

  // ----- The JSON input: a hashed name and its numbers per item -----

  datatype Item = Item(h: nat, numbers: seq<nat>)

  /** Every item gives its signal exactly as many numbers as it has room for. */
  predicate Sized(c: Circuit, items: seq<Item>)
    requires Good(c)
  {
    forall k :: 0 <= k < |items| ==> SizedItem(c, items[k])
  }

  predicate SizedItem(c: Circuit, item: Item)
    requires Good(c)
  {
    var found := Find(c.table, item.h);
    FindInTable(c.table, item.h);
    found.Found? && |item.numbers| == c.table[found.pos].signalsize
  }

  /** The name is found, and its entry has room for exactly these numbers, neither more nor fewer. */
  predicate WellSized(c: Circuit, item: Item) {
    && |c.table| > 0
    && var found := Find(c.table, item.h);
       found.Found? && found.pos < |c.table|
       && !(|item.numbers| < c.table[found.pos].signalsize) && !(|item.numbers| > c.table[found.pos].signalsize)
  }

  lemma SizedExactly(c: Circuit, items: seq<Item>)
    requires Good(c)
    ensures Sized(c, items) <==> forall k :: 0 <= k < |items| ==> WellSized(c, items[k])
  {
    forall k | 0 <= k < |items| ensures SizedItem(c, items[k]) <==> WellSized(c, items[k]) {
      FindInTable(c.table, items[k].h);
    }
  }

  function ItemCalls(item: Item): (calls: seq<SetCall>)
    ensures |calls| == |item.numbers|
  {
    seq(|item.numbers|, i requires 0 <= i < |item.numbers| => SetCall(item.h, i, item.numbers[i]))
  }

  function CallsOf(items: seq<Item>): seq<SetCall> {
    if items == [] then [] else CallsOf(items[..|items| - 1]) + ItemCalls(items[|items| - 1])
  }

  lemma OneMoreItem(c: Circuit, items: seq<Item>, k: nat)
    requires Good(c) && k < |items|
    ensures Sized(c, items[..k + 1]) <==> Sized(c, items[..k]) && SizedItem(c, items[k])
    ensures Sized(c, items) ==> SizedItem(c, items[k])
    ensures CallsOf(items[..k + 1]) == CallsOf(items[..k]) + ItemCalls(items[k])
  {
    assert items[..k + 1][..k] == items[..k];
    if Sized(c, items[..k + 1]) {
      assert forall j :: 0 <= j < k ==> items[..k][j] == items[..k + 1][j];
      assert SizedItem(c, items[..k + 1][k]);
    }
  }

  lemma {:induction false} CallsOfPrefix(items: seq<Item>, n: nat)
    requires n <= |items|
    ensures CallsOf(items[..n]) <= CallsOf(items)
  {
    if n < |items| {
      assert items[..|items| - 1][..n] == items[..n];
      CallsOfPrefix(items[..|items| - 1], n);
    } else {
      assert items[..n] == items;
    }
  }

  lemma AbortInItem(c: Circuit, items: seq<Item>, k: nat, n: nat, values: seq<nat>)
    requires Good(c) && |values| == c.totalNo && k < |items| && n <= |items[k].numbers|
    requires Run(c, CallsOf(items[..k]) + ItemCalls(items[k])[..n], values).None?
    ensures Run(c, CallsOf(items), values).None?
  {
    CallsOfPrefix(items, k + 1);
    assert items[..k + 1][..k] == items[..k];
    var some, all := CallsOf(items[..k]) + ItemCalls(items[k])[..n], CallsOf(items);
    assert some == all[..|some|];
    AbortIsFinal(c, all, |some|, values);
  }

  /** The entries of the map do not overlap. */
  predicate Disjoint(c: Circuit) {
    forall p, q :: 0 <= p < |c.table| && 0 <= q < |c.table| && p != q ==> Apart(c.table[p], c.table[q])
  }

  predicate Apart(a: Entry, b: Entry) {
    a.signalsize == 0 || b.signalsize == 0 || a.signalid + a.signalsize <= b.signalid || b.signalid + b.signalsize <= a.signalid
  }

  /** No two items name the same entry. */
  predicate DistinctNames(c: Circuit, items: seq<Item>)
    requires Good(c)
  {
    forall j, k :: 0 <= j < k < |items| ==> Find(c.table, items[j].h) != Find(c.table, items[k].h)
  }

  lemma {:induction false} CallOfSomeItem(items: seq<Item>, j: nat) returns (k: nat, i: nat)
    requires j < |CallsOf(items)|
    ensures k < |items| && i < |items[k].numbers| && CallsOf(items)[j] == SetCall(items[k].h, i, items[k].numbers[i])
  {
    var n := |items| - 1;
    var earlier := CallsOf(items[..n]);
    if j < |earlier| {
      k, i := CallOfSomeItem(items[..n], j);
    } else {
      k, i := n, j - |earlier|;
    }
  }

  lemma TargetInEntry(c: Circuit, item: Item, i: nat)
    requires Good(c) && SizedItem(c, item) && i < |item.numbers|
    ensures var pos := Find(c.table, item.h).pos;
            pos < |c.table| && i < c.table[pos].signalsize
            && Target(c, SetCall(item.h, i, item.numbers[i])) == Some(c.table[pos].signalid + i)
  {
    FindInTable(c.table, item.h);
  }

  /** Targets of calls made for different items differ. */
  lemma ItemsApart(c: Circuit, a: Item, i: nat, b: Item, j: nat)
    requires Good(c) && Disjoint(c) && SizedItem(c, a) && SizedItem(c, b) && i < |a.numbers| && j < |b.numbers|
    requires Find(c.table, a.h) != Find(c.table, b.h)
    ensures Target(c, SetCall(a.h, i, a.numbers[i])) != Target(c, SetCall(b.h, j, b.numbers[j]))
  {
    TargetInEntry(c, a, i);
    TargetInEntry(c, b, j);
    assert Apart(c.table[Find(c.table, a.h).pos], c.table[Find(c.table, b.h).pos]);
  }

  lemma {:induction false} CallsApart(c: Circuit, items: seq<Item>)
    requires Good(c) && Disjoint(c) && Sized(c, items) && DistinctNames(c, items)
    ensures DistinctTargets(c, CallsOf(items))
  {
    if items != [] {
      var n := |items| - 1;
      var earlier, last, calls := CallsOf(items[..n]), items[n], CallsOf(items);
      CallsApart(c, items[..n]);
      forall k | 0 <= k < |calls| ensures Target(c, calls[k]).Some? {
        if k >= |earlier| { TargetInEntry(c, last, k - |earlier|); }
      }
      forall j, k | 0 <= j < k < |calls| ensures Target(c, calls[j]) != Target(c, calls[k]) {
        if k >= |earlier| { LastItemApart(c, items, j, k); }
      }
    }
  }

  /** A call for the last item has a target of its own. */
  lemma LastItemApart(c: Circuit, items: seq<Item>, j: nat, k: nat)
    requires Good(c) && Disjoint(c) && Sized(c, items) && DistinctNames(c, items) && items != []
    requires j < k < |CallsOf(items)| && k >= |CallsOf(items[..|items| - 1])|
    ensures Target(c, CallsOf(items)[j]) != Target(c, CallsOf(items)[k])
  {
    var n := |items| - 1;
    var last, start := items[n], |CallsOf(items[..n])|;
    if j >= start {
      TargetInEntry(c, last, j - start);
      TargetInEntry(c, last, k - start);
    } else {
      var m, i := CallOfSomeItem(items[..n], j);
      ItemsApart(c, items[m], i, last, k - start);
    }
  }

  /**
   * On a map without overlaps, input that names entries once each and fills them loads without an abort, and the
   * circuit runs exactly when the numbers given are as many as the main inputs.
   */
  lemma NamesOnceLoad(c: Circuit, items: seq<Item>, values: seq<nat>)
    requires Good(c) && Disjoint(c) && |values| == c.totalNo && Sized(c, items) && DistinctNames(c, items)
    ensures var r := Run(c, CallsOf(items), values);
            && r.Some? && |CallsOf(items)| <= c.inputNo
            && r.value.runs == if |CallsOf(items)| == c.inputNo > 0 then [r.value.values] else []
  {
    CallsApart(c, items);
    LoadingExactly(c, CallsOf(items), values);
  }

  /** When the circuit runs, every main input has been set by some call. */
  lemma RunSeesEveryInput(c: Circuit, calls: seq<SetCall>, values: seq<nat>, si: nat)
    requires Good(c) && |values| == c.totalNo && Run(c, calls, values).Some?
    requires Run(c, calls, values).value.runs != [] && c.inputStart <= si < c.inputStart + c.inputNo
    ensures |Run(c, calls, values).value.runs| == 1
    ensures |Run(c, calls, values).value.runs[0]| == c.totalNo
    ensures exists k :: 0 <= k < |calls| && Target(c, calls[k]) == Some(si)
              && Run(c, calls, values).value.runs[0][si] == calls[k].val
  {
    LoadingExactly(c, calls, values);
    var s := Run(c, calls, values).value;
    FlagTells(c, calls, values, s, si);
    SetValueStays(c, calls, values, s, si);
  }

  lemma SetValueStays(c: Circuit, calls: seq<SetCall>, values: seq<nat>, s: State, si: nat)
    requires Good(c) && Fits(c, s) && |values| == c.totalNo && Loaded(c, calls, values, s)
    requires SetByCall(c, calls, si) && si < c.totalNo
    ensures exists k :: 0 <= k < |calls| && Target(c, calls[k]) == Some(si) && s.values[si] == calls[k].val
  {
    var k :| 0 <= k < |calls| && Target(c, calls[k]) == Some(si);
    assert s.values[Target(c, calls[k]).value] == calls[k].val;
  }
}

/** The object itself: arrays of flags and values, and the loops over the hash map and the JSON input. */
module InputLoader {
  import opened Common
  import opened PrimeField
  import opened InputModel

  class CalcWit {
    const circuit: Circuit
    var inputSignalAssigned: array<bool>
    var inputSignalAssignedCounter: nat
    var signalValues: array<nat>
    ghost var runs: seq<seq<nat>>

    ghost predicate Valid()
      reads this, inputSignalAssigned, signalValues
    {
      Good(circuit) && Fits(circuit, Current())
    }

    ghost function Current(): State
      reads this, inputSignalAssigned, signalValues
    {
      State(inputSignalAssigned[..], inputSignalAssignedCounter, signalValues[..], runs)
    }

    constructor (c: Circuit)
      requires Good(c)
      ensures circuit == c && Valid() && fresh(inputSignalAssigned) && fresh(signalValues)
      ensures Current() == Fresh(c, signalValues[..]) && signalValues[0] == 1
    {
      circuit := c;
      inputSignalAssignedCounter := c.inputNo;
      inputSignalAssigned := new bool[c.inputNo](_ => false);
      signalValues := new nat[c.totalNo];
      runs := [];
      new;
      signalValues[0] := 1;
    }

    method GetInputSignalHashPosition(h: nat) returns (found: Lookup)
      requires Good(circuit)
      ensures found == Find(circuit.table, h) && (found.Found? ==> found.pos < |circuit.table|)
    {
      var n := |circuit.table|;
      var pos := h % n;
      if circuit.table[pos].hash == h { return Found(pos); }
      var inipos := pos;
      pos := pos + 1;
      if pos == n { return OutOfBounds; }  // the next slot is read before the index is reduced
      ghost var d := 1;
      while pos != inipos
        invariant 1 <= d <= n && (d < n ==> pos == Slot(n, inipos, d)) && (d == n ==> pos == inipos)
        invariant Probe(circuit.table, h, inipos, d) == Find(circuit.table, h)
        decreases n - d
      {
        if circuit.table[pos].hash == h { return Found(pos); }
        if circuit.table[pos].hash == 0 { return NotFound; }
        NextSlot(pos, n);
        pos := (pos + 1) % n;
        d := d + 1;
      }
      return NotFound;
    }

    /** The run is recorded with the values it sees; what it computes into other signals is not modelled. */
    method TryRunCircuit()
      modifies this`runs
      ensures Current() == RunIfComplete(old(Current()))
    {
      if inputSignalAssignedCounter == 0 {
        runs := runs + [signalValues[..]];
      }
    }

    /** ok is false where the program aborts. */
    method SetInputSignal(h: nat, i: nat, val: nat) returns (ok: bool)
      requires Valid()
      modifies this`inputSignalAssignedCounter, this`runs, inputSignalAssigned, signalValues
      ensures Valid()
      ensures var r := SetInput(circuit, old(Current()), SetCall(h, i, val));
              && (ok <==> r.Some?)
              && Current() == if ok then r.value else old(Current())
    {
      ghost var call := SetCall(h, i, val);
      if inputSignalAssignedCounter == 0 { return false; }
      var found := GetInputSignalHashPosition(h);
      if !found.Found? { return false; }
      if i >= circuit.table[found.pos].signalsize { return false; }
      var si := circuit.table[found.pos].signalid + i;
      TargetIsInput(circuit, call);
      if inputSignalAssigned[si - circuit.inputStart] { return false; }
      ghost var before := Current();
      signalValues[si] := val;
      inputSignalAssigned[si - circuit.inputStart] := true;
      inputSignalAssignedCounter := inputSignalAssignedCounter - 1;
      TryRunCircuit();
      assert Current() == SetInput(circuit, before, call).value;
      return true;
    }

    /** The numbers of one item, after the calls already made. */
    method LoadItem(item: Item, ghost calls: seq<SetCall>, ghost values: seq<nat>) returns (ok: bool, ghost made: nat)
      requires Valid() && |values| == circuit.totalNo && Some(Current()) == Run(circuit, calls, values)
      modifies this`inputSignalAssignedCounter, this`runs, inputSignalAssigned, signalValues
      ensures Valid() && made <= |item.numbers|
      ensures ok ==> Some(Current()) == Run(circuit, calls + ItemCalls(item), values)
      ensures !ok ==> Run(circuit, calls + ItemCalls(item)[..made], values).None?
    {
      made := 0;
      assert calls + ItemCalls(item)[..0] == calls;
      for i := 0 to |item.numbers|
        invariant Valid() && made == i
        invariant Some(Current()) == Run(circuit, calls + ItemCalls(item)[..i], values)
      {
        OneMoreCall(calls, item, i);
        made := i + 1;
        ok := SetInputSignal(item.h, i, item.numbers[i]);
        if !ok { return; }
      }
      assert ItemCalls(item)[..|item.numbers|] == ItemCalls(item);
      ok := true;
    }

    method LoadJson(items: seq<Item>) returns (ok: bool)
      requires Valid() && Current() == Fresh(circuit, signalValues[..])
      modifies this`inputSignalAssignedCounter, this`runs, inputSignalAssigned, signalValues
      ensures Valid()
      ensures ok <==> Sized(circuit, items) && Run(circuit, CallsOf(items), old(signalValues[..])).Some?
      ensures ok ==> forall k :: 0 <= k < |items| ==> WellSized(circuit, items[k])
      ensures ok && items == [] ==> Current() == RunIfComplete(old(Current()))
      ensures ok && items != [] ==> Some(Current()) == Run(circuit, CallsOf(items), old(signalValues[..]))
    {
      ghost var values := signalValues[..];
      if |items| == 0 {
        TryRunCircuit();
        return true;
      }
      for k := 0 to |items|
        invariant Valid() && Sized(circuit, items[..k])
        invariant Some(Current()) == Run(circuit, CallsOf(items[..k]), values)
      {
        OneMoreItem(circuit, items, k);
        ok := HasRightSize(items[k]);
        if !ok { return; }
        ghost var calls, made := CallsOf(items[..k]), 0;
        ok, made := LoadItem(items[k], calls, values);
        if !ok {
          AbortInItem(circuit, items, k, made, values);
          return;
        }
      }
      assert items[..|items|] == items;
      ok := true;
      SizedExactly(circuit, items);
    }

    method HasRightSize(item: Item) returns (ok: bool)
      requires Good(circuit)
      ensures ok <==> SizedItem(circuit, item)
    {
      var found := GetInputSignalHashPosition(item.h);
      ok := found.Found? && |item.numbers| == circuit.table[found.pos].signalsize;
    }
  }

  lemma OneMoreCall(calls: seq<SetCall>, item: Item, i: nat)
    requires i < |item.numbers|
    ensures var more := calls + ItemCalls(item)[..i + 1];
            more[..|more| - 1] == calls + ItemCalls(item)[..i]
            && more[|more| - 1] == SetCall(item.h, i, item.numbers[i])
  {
  }

  lemma NextSlot(pos: nat, n: nat)
    requires pos < n
    ensures (pos + 1) % n == if pos + 1 < n then pos + 1 else 0
  {
    if pos + 1 < n {
      RemainderUnique(pos + 1, 0, pos + 1, n);
    } else {
      RemainderUnique(n, 1, 0, n);
    }
  }
}
