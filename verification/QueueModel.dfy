/** The byte-budget queue of internal/bounded/queue.go as a function of values, with the 64-bit
  * arithmetic of its byte counter. */
module QueueModel {
  import opened Basics

  const WORD := 0x1_0000_0000_0000_0000

  /** Two's complement wrap-around. */
  function Wrap(x: int): (r: int64)
    ensures (r - x) % WORD == 0
  {
    (x + INT64_MAX + 1) % WORD - INT64_MAX - 1
  }

  datatype Item<T> = Item(value: T, bytes: int64, enqueued: int)

  datatype Queue<T> = Queue(items: seq<Item<T>>, maxPackets: nat, maxBytes: int64, curBytes: int64)

  datatype Verdict = Accepted | Panics | ItemTooLarge | FullPackets | FullBytes

  predicate Configured<T>(q: Queue<T>) { q.maxPackets > 0 && q.maxBytes > 0 }

  function Empty<T>(maxPackets: nat, maxBytes: int64): Queue<T> { Queue([], maxPackets, maxBytes, 0) }

  function Judge<T>(q: Queue<T>, size: int64): Verdict {
    if size <= 0 then Panics
    else if size > q.maxBytes then ItemTooLarge
    else if |q.items| == q.maxPackets then FullPackets
    else if Wrap(q.curBytes + size) > q.maxBytes then FullBytes
    else Accepted
  }

  function Enqueue<T>(q: Queue<T>, value: T, size: int64, now: int): Queue<T> {
    if Judge(q, size) != Accepted then q
    else q.(items := q.items + [Item(value, size, now)], curBytes := Wrap(q.curBytes + size))
  }

  /** Also DropOldest. */
  function Dequeue<T>(q: Queue<T>): Queue<T> {
    if q.items == [] then q
    else q.(items := q.items[1..], curBytes := Wrap(q.curBytes - q.items[0].bytes))
  }

  /** How many items from the head on were enqueued at or before the cutoff. */
  function ExpiredAtHead<T>(items: seq<Item<T>>, cutoff: int): (n: nat)
    ensures n <= |items|
  {
    if items == [] || items[0].enqueued > cutoff then 0 else 1 + ExpiredAtHead(items[1..], cutoff)
  }

  function DropN<T>(q: Queue<T>, n: nat): Queue<T>
    requires n <= |q.items|
    decreases n
  {
    if n == 0 then q else DropN(Dequeue(q), n - 1)
  }

  function DropExpired<T>(q: Queue<T>, cutoff: int): Queue<T> { DropN(q, ExpiredAtHead(q.items, cutoff)) }

  function Sum<T>(items: seq<Item<T>>): int {
    if items == [] then 0 else Sum(items[..|items| - 1]) + items[|items| - 1].bytes
  }

  // ---------------------------------------------------------------- runs

  datatype Op<T> =
    | Put(value: T, size: int64, now: int)
    | Take
    | Expire(cutoff: int)

  /** `accepted` and `removed` are everything that ever went in and came out, in order. */
  datatype Run<T> = Run(q: Queue<T>, accepted: seq<Item<T>>, removed: seq<Item<T>>)

  function Step<T>(r: Run<T>, op: Op<T>): Run<T> {
    match op
    case Put(value, size, now) =>
      Run(Enqueue(r.q, value, size, now),
          r.accepted + (if Judge(r.q, size) == Accepted then [Item(value, size, now)] else []), r.removed)
    case Take =>
      Run(Dequeue(r.q), r.accepted, r.removed + if r.q.items == [] then [] else [r.q.items[0]])
    case Expire(cutoff) =>
      Run(DropExpired(r.q, cutoff), r.accepted, r.removed + r.q.items[..ExpiredAtHead(r.q.items, cutoff)])
  }

  function Execute<T>(q: Queue<T>, ops: seq<Op<T>>): Run<T> {
    if ops == [] then Run(q, [], [])
    else Step(Execute(q, ops[..|ops| - 1]), ops[|ops| - 1])
  }
}
