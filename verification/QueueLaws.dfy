/** What holds of the queue over every run. */
module QueueLaws {
  import opened Basics
  import opened QueueModel

  lemma WrapUnique(x: int, y: int)
    requires -INT64_MAX - 1 <= y <= INT64_MAX && (x - y) % WORD == 0
    ensures Wrap(x) == y
  {}

  lemma WrapAdds(x: int, y: int)
    ensures Wrap(Wrap(x) + y) == Wrap(x + y)
  {}

  lemma {:induction false} SumConcat<T>(a: seq<Item<T>>, b: seq<Item<T>>)
    ensures Sum(a + b) == Sum(a) + Sum(b)
  {
    if b == [] {
      assert a + b == a;
    } else {
      assert (a + b)[..|a + b| - 1] == a + b[..|b| - 1];
      SumConcat(a, b[..|b| - 1]);
    }
  }

  lemma SumOne<T>(i: Item<T>)
    ensures Sum([i]) == i.bytes
  {
    assert [i][..0] == [];
  }

  lemma DequeueSum<T>(q: Queue<T>)
    requires q.items != []
    ensures Sum(Dequeue(q).items) == Sum(q.items) - q.items[0].bytes
  {
    assert q.items == [q.items[0]] + q.items[1..];
    SumConcat([q.items[0]], q.items[1..]);
    SumOne(q.items[0]);
  }

  // ---------------------------------------------------------------- accounting

  ghost predicate Sizes<T>(items: seq<Item<T>>, maxBytes: int64) {
    forall i | 0 <= i < |items| :: 0 < items[i].bytes <= maxBytes
  }

  /** The counter is the sum of the sizes, up to wrap-around. */
  ghost predicate Counted<T>(q: Queue<T>) {
    && Configured(q)
    && |q.items| <= q.maxPackets
    && Sizes(q.items, q.maxBytes)
    && q.curBytes == Wrap(Sum(q.items))
  }

  lemma EnqueueCounted<T>(q: Queue<T>, value: T, size: int64, now: int)
    requires Counted(q)
    ensures Counted(Enqueue(q, value, size, now))
  {
    SumConcat(q.items, [Item(value, size, now)]);
    SumOne(Item(value, size, now));
    WrapAdds(Sum(q.items), size);
  }

  lemma DequeueCounted<T>(q: Queue<T>)
    requires Counted(q)
    ensures Counted(Dequeue(q))
  {
    if q.items != [] {
      DequeueSum(q);
      WrapAdds(Sum(q.items), -q.items[0].bytes);
    }
  }

  lemma {:induction false} DropNCounted<T>(q: Queue<T>, n: nat)
    requires Counted(q) && n <= |q.items|
    ensures Counted(DropN(q, n))
    ensures DropN(q, n).items == q.items[n..]
    ensures DropN(q, n).maxBytes == q.maxBytes && DropN(q, n).maxPackets == q.maxPackets
    decreases n
  {
    if n > 0 {
      DequeueCounted(q);
      DropNCounted(Dequeue(q), n - 1);
    }
  }

  /** Nothing is lost, invented or reordered: what came out followed by what is still queued is what
    * was queued at first followed by what went in; and so for the bytes. */
  lemma {:induction false} Fifo<T>(q: Queue<T>, ops: seq<Op<T>>)
    requires Counted(q)
    ensures var r := Execute(q, ops);
            && Counted(r.q) && r.q.maxBytes == q.maxBytes && r.q.maxPackets == q.maxPackets
            && r.removed + r.q.items == q.items + r.accepted
            && Sum(r.removed) + Sum(r.q.items) == Sum(q.items) + Sum(r.accepted)
  {
    if ops != [] {
      var n := |ops| - 1;
      var s, op := Execute(q, ops[..n]), ops[n];
      Fifo(q, ops[..n]);
      StepFifo(s, op, q.items);
    }
    var r := Execute(q, ops);
    SumConcat(r.removed, r.q.items);
    SumConcat(q.items, r.accepted);
  }

  lemma StepFifo<T>(s: Run<T>, op: Op<T>, first: seq<Item<T>>)
    requires Counted(s.q) && s.removed + s.q.items == first + s.accepted
    ensures var r := Step(s, op);
            && Counted(r.q) && r.q.maxBytes == s.q.maxBytes && r.q.maxPackets == s.q.maxPackets
            && r.removed + r.q.items == first + r.accepted
  {
    match op
    case Put(value, size, now) => PutFifo(s, value, size, now, first);
    case Take => TakeFifo(s, first);
    case Expire(cutoff) => ExpireFifo(s, cutoff, first);
  }

  lemma PutFifo<T>(s: Run<T>, value: T, size: int64, now: int, first: seq<Item<T>>)
    requires Counted(s.q) && s.removed + s.q.items == first + s.accepted
    ensures var r := Step(s, Put(value, size, now)); Counted(r.q) && r.removed + r.q.items == first + r.accepted
  {
    var added := if Judge(s.q, size) == Accepted then [Item(value, size, now)] else [];
    EnqueueCounted(s.q, value, size, now);
    hide Counted, Judge;
    assert s.removed + (s.q.items + added) == (s.removed + s.q.items) + added;
    assert first + (s.accepted + added) == (first + s.accepted) + added;
  }

  lemma TakeFifo<T>(s: Run<T>, first: seq<Item<T>>)
    requires Counted(s.q) && s.removed + s.q.items == first + s.accepted
    ensures var r := Step(s, Take); Counted(r.q) && r.removed + r.q.items == first + r.accepted
  {
    DequeueCounted(s.q);
    hide Counted;
    if s.q.items != [] {
      assert (s.removed + [s.q.items[0]]) + s.q.items[1..] == s.removed + s.q.items;
    }
  }

  lemma ExpireFifo<T>(s: Run<T>, cutoff: int, first: seq<Item<T>>)
    requires Counted(s.q) && s.removed + s.q.items == first + s.accepted
    ensures var r := Step(s, Expire(cutoff)); Counted(r.q) && r.removed + r.q.items == first + r.accepted
    ensures var r := Step(s, Expire(cutoff)); r.q.maxBytes == s.q.maxBytes && r.q.maxPackets == s.q.maxPackets
  {
    hide Counted;
    var k := ExpiredAtHead(s.q.items, cutoff);
    DropNCounted(s.q, k);
    assert (s.removed + s.q.items[..k]) + s.q.items[k..] == s.removed + s.q.items;
  }

  // ---------------------------------------------------------------- the byte budget

  ghost predicate WithinBudget<T>(q: Queue<T>) { q.curBytes == Sum(q.items) && 0 <= Sum(q.items) <= q.maxBytes }

  /** The counter plus one more item can never wrap around. */
  predicate NoWrap(maxPackets: nat, maxBytes: int64) { maxPackets == 1 || 2 * maxBytes <= INT64_MAX }

  lemma {:induction false} SumNonNegative<T>(items: seq<Item<T>>, maxBytes: int64)
    requires Sizes(items, maxBytes)
    ensures Sum(items) >= 0
  {
    if items != [] { SumNonNegative(items[..|items| - 1], maxBytes); }
  }

  lemma StepBudget<T>(s: Run<T>, op: Op<T>)
    requires Counted(s.q) && WithinBudget(s.q) && NoWrap(s.q.maxPackets, s.q.maxBytes)
    ensures Counted(Step(s, op).q) && WithinBudget(Step(s, op).q)
  {
    var r := Step(s, op);
    match op {
      case Put(value, size, now) =>
        EnqueueCounted(s.q, value, size, now);
        if Judge(s.q, size) == Accepted {
          SumConcat(s.q.items, [Item(value, size, now)]);
          SumOne(Item(value, size, now));
          if s.q.maxPackets == 1 { assert s.q.items == []; }
        }
      case Take =>
        DequeueCounted(s.q);
        TailBudget(s.q, if s.q.items == [] then 0 else 1);
      case Expire(cutoff) =>
        DropNCounted(s.q, ExpiredAtHead(s.q.items, cutoff));
        TailBudget(s.q, ExpiredAtHead(s.q.items, cutoff));
    }
  }

  lemma TailBudget<T>(q: Queue<T>, n: nat)
    requires Counted(q) && WithinBudget(q) && n <= |q.items|
    ensures 0 <= Sum(q.items[n..]) <= q.maxBytes
    ensures Wrap(Sum(q.items[n..])) == Sum(q.items[n..])
  {
    assert q.items == q.items[..n] + q.items[n..];
    SumConcat(q.items[..n], q.items[n..]);
    SumNonNegative(q.items[..n], q.maxBytes);
    SumNonNegative(q.items[n..], q.maxBytes);
  }

  lemma {:induction false} RunBudget<T>(q: Queue<T>, ops: seq<Op<T>>)
    requires Counted(q) && WithinBudget(q) && NoWrap(q.maxPackets, q.maxBytes)
    ensures WithinBudget(Execute(q, ops).q)
  {
    if ops != [] {
      Fifo(q, ops[..|ops| - 1]);
      RunBudget(q, ops[..|ops| - 1]);
      StepBudget(Execute(q, ops[..|ops| - 1]), ops[|ops| - 1]);
    }
  }

  /** Within those limits the queue takes an item exactly when there is room for it, and otherwise names
    * the first limit, in this order, that the item would break. */
  lemma AcceptsIff<T>(q: Queue<T>, size: int64)
    requires Counted(q) && WithinBudget(q) && NoWrap(q.maxPackets, q.maxBytes)
    ensures var v := Judge(q, size);
            && (v == Panics <==> size <= 0)
            && (v == ItemTooLarge <==> size > q.maxBytes)
            && (v == FullPackets <==> 0 < size <= q.maxBytes && |q.items| == q.maxPackets)
            && (v == FullBytes <==>
                  0 < size <= q.maxBytes && |q.items| < q.maxPackets && Sum(q.items) + size > q.maxBytes)
            && (v == Accepted <==> 0 < size && |q.items| < q.maxPackets && Sum(q.items) + size <= q.maxBytes)
  {
    if q.maxPackets == 1 && |q.items| < 1 { assert q.items == []; }
    if size <= q.maxBytes && q.curBytes + size <= INT64_MAX { WrapUnique(q.curBytes + size, q.curBytes + size); }
  }

  /** No run takes a new queue over its budget. */
  ghost predicate AlwaysWithinBudget(maxPackets: nat, maxBytes: int64) {
    forall ops: seq<Op<int>> :: WithinBudget(Execute(Empty(maxPackets, maxBytes), ops).q)
  }

  /** The byte budget holds over every run exactly when twice the budget is still a 64-bit integer,
    * or the queue has room for a single packet. */
  lemma BudgetIff(maxPackets: nat, maxBytes: int64)
    requires maxPackets > 0 && maxBytes > 0
    ensures AlwaysWithinBudget(maxPackets, maxBytes) <==> NoWrap(maxPackets, maxBytes)
  {
    var q: Queue<int> := Empty(maxPackets, maxBytes);
    if NoWrap(maxPackets, maxBytes) {
      forall ops: seq<Op<int>> ensures WithinBudget(Execute(q, ops).q) { RunBudget(q, ops); }
    } else {
      TwoLargeItems(maxPackets, maxBytes);
    }
  }

  lemma TwoLargeItems(maxPackets: nat, maxBytes: int64)
    requires maxPackets > 1 && maxBytes > 0 && 2 * maxBytes > INT64_MAX
    ensures !AlwaysWithinBudget(maxPackets, maxBytes)
  {
    var q: Queue<int> := Empty(maxPackets, maxBytes);
    var op, item := Put(0, maxBytes, 0), Item(0, maxBytes, 0);
    ExecuteSnoc(q, [], op);
    var s := Step(Run(q, [], []), op).q;
    assert s.items == [item];
    assert s.curBytes == maxBytes by { WrapUnique(maxBytes, maxBytes); }
    ExecuteSnoc(q, [op], op);
    var r := Execute(q, [op] + [op]).q;
    WrapUnique(2 * maxBytes, 2 * maxBytes - WORD);
    assert r.items == [item] + [item];
    SumConcat([item], [item]);
    SumOne(item);
    assert !WithinBudget(r);
  }

  lemma ExecuteSnoc<T>(q: Queue<T>, ops: seq<Op<T>>, op: Op<T>)
    ensures Execute(q, ops + [op]) == Step(Execute(q, ops), op)
    ensures ops == [] ==> Execute(q, [op]) == Step(Run(q, [], []), op)
  {
    assert (ops + [op])[..|ops|] == ops;
    if ops == [] { assert ops + [op] == [op]; }
  }

  // ---------------------------------------------------------------- expiry

  /** The state of DropExpired's loop: `dropped` is out, `q` is what is left of `first`. */
  ghost predicate Dropping<T>(first: Queue<T>, q: Queue<T>, dropped: seq<Item<T>>, cutoff: int) {
    && first.items == dropped + q.items
    && ExpiredAtHead(first.items, cutoff) == |dropped| + ExpiredAtHead(q.items, cutoff)
    && DropExpired(q, cutoff) == DropExpired(first, cutoff)
  }

  lemma DroppingStarts<T>(q: Queue<T>, cutoff: int)
    ensures Dropping(q, q, [], cutoff)
  {}

  lemma DroppingStep<T>(first: Queue<T>, q: Queue<T>, dropped: seq<Item<T>>, cutoff: int)
    requires Dropping(first, q, dropped, cutoff)
    requires q.items != [] && q.items[0].enqueued <= cutoff
    ensures Dropping(first, Dequeue(q), dropped + [q.items[0]], cutoff)
    ensures |Dequeue(q).items| < |q.items|
  {
    assert dropped + q.items == (dropped + [q.items[0]]) + q.items[1..];
  }

  lemma DroppingEnds<T>(first: Queue<T>, q: Queue<T>, dropped: seq<Item<T>>, cutoff: int)
    requires Dropping(first, q, dropped, cutoff)
    requires q.items == [] || q.items[0].enqueued > cutoff
    ensures q == DropExpired(first, cutoff)
    ensures dropped == first.items[..ExpiredAtHead(first.items, cutoff)]
  {}

  ghost predicate InTimeOrder<T>(items: seq<Item<T>>) {
    forall i, j | 0 <= i < j < |items| :: items[i].enqueued <= items[j].enqueued
  }

  function Filter<T>(items: seq<Item<T>>, cutoff: int, expired: bool): seq<Item<T>> {
    if items == [] then []
    else (if (items[0].enqueued <= cutoff) == expired then [items[0]] else []) + Filter(items[1..], cutoff, expired)
  }

  /** In any queue the items dropped are the longest stretch from the head on that is expired. */
  lemma {:induction false} DropsExpiredHead<T>(items: seq<Item<T>>, cutoff: int)
    ensures var k := ExpiredAtHead(items, cutoff);
            && (forall i | 0 <= i < k :: items[i].enqueued <= cutoff)
            && (k < |items| ==> items[k].enqueued > cutoff)
  {
    if items != [] && items[0].enqueued <= cutoff { DropsExpiredHead(items[1..], cutoff); }
  }

  /** Only the head is ever looked at, and yet, when the items are in time order, exactly the expired
    * ones go, wherever they are in the queue, and exactly the others stay. */
  lemma {:induction false} ExpiryFilters<T>(items: seq<Item<T>>, cutoff: int)
    requires InTimeOrder(items)
    ensures var k := ExpiredAtHead(items, cutoff);
            items[..k] == Filter(items, cutoff, true) && items[k..] == Filter(items, cutoff, false)
  {
    if items != [] {
      if items[0].enqueued > cutoff {
        AllKept(items, cutoff);
      } else {
        ExpiryFilters(items[1..], cutoff);
        var k := ExpiredAtHead(items[1..], cutoff);
        assert items[..k + 1] == [items[0]] + items[1..][..k];
        assert items[k + 1..] == items[1..][k..];
      }
    }
  }

  lemma {:induction false} AllKept<T>(items: seq<Item<T>>, cutoff: int)
    requires forall i | 0 <= i < |items| :: items[i].enqueued > cutoff
    ensures Filter(items, cutoff, true) == [] && Filter(items, cutoff, false) == items
  {
    if items != [] { AllKept(items[1..], cutoff); }
  }

  /** The injected clock never goes backwards, and has not yet reached the time `now`. */
  ghost predicate Monotone<T>(ops: seq<Op<T>>, now: int) {
    && (forall i | 0 <= i < |ops| && ops[i].Put? :: ops[i].now <= now)
    && (forall i, j | 0 <= i < j < |ops| && ops[i].Put? && ops[j].Put? :: ops[i].now <= ops[j].now)
  }

  /** Under a monotone clock the queue is in time order after every run, so that expiry filters. */
  lemma {:induction false} TimeOrder<T>(q: Queue<T>, ops: seq<Op<T>>, now: int)
    requires Counted(q) && q.items == [] && Monotone(ops, now)
    ensures var items := Execute(q, ops).q.items;
            InTimeOrder(items) && forall i | 0 <= i < |items| :: items[i].enqueued <= now
  {
    if ops != [] {
      var n := |ops| - 1;
      var op := ops[n];
      TimeOrder(q, ops[..n], if op.Put? then op.now else now);
      Fifo(q, ops[..n]);
      StepInOrder(Execute(q, ops[..n]), op, if op.Put? then op.now else now);
    }
  }

  lemma StepInOrder<T>(s: Run<T>, op: Op<T>, now: int)
    requires Counted(s.q) && InTimeOrder(s.q.items) && (op.Put? ==> op.now == now)
    requires forall i | 0 <= i < |s.q.items| :: s.q.items[i].enqueued <= now
    ensures var items := Step(s, op).q.items;
            InTimeOrder(items) && forall i | 0 <= i < |items| :: items[i].enqueued <= now
  {
    hide Counted, Judge;
    if op.Expire? { DropNCounted(s.q, ExpiredAtHead(s.q.items, op.cutoff)); }
  }

  lemma DropExpiredFilters<T>(q: Queue<T>, ops: seq<Op<T>>, now: int, cutoff: int)
    requires Counted(q) && q.items == [] && Monotone(ops, now)
    ensures var s := Execute(q, ops);
            var r := Step(s, Expire(cutoff));
            && r.removed == s.removed + Filter(s.q.items, cutoff, true)
            && r.q.items == Filter(s.q.items, cutoff, false)
  {
    var s := Execute(q, ops);
    TimeOrder(q, ops, now);
    Fifo(q, ops);
    ExpiryFilters(s.q.items, cutoff);
    DropNCounted(s.q, ExpiredAtHead(s.q.items, cutoff));
  }
}
