/** The byte queue as it is built: a ring of stamped items and a running byte count. */
module ByteQueues {
  import opened Basics
  import opened BoundedRing
  import M = QueueModel
  import Laws = QueueLaws

  class ByteQueue<T(==)> {
    const items: Ring<M.Item<T>>
    const maxBytes: int64
    var curBytes: int64

    ghost predicate Valid()
      reads this, items, items.buf
    {
      items.Valid() && Laws.Counted(View())
    }

    ghost function View(): M.Queue<T>
      requires items.Shape()
      reads this, items, items.buf
    {
      M.Queue(items.Contents(), items.buf.Length, maxBytes, curBytes)
    }

    constructor (maxPackets: nat, maxBytes: int64, zero: T)
      requires maxPackets > 0 && maxBytes > 0
      ensures Valid() && fresh(items) && fresh(items.buf) && View() == M.Empty(maxPackets, maxBytes)
    {
      this.items := new Ring(maxPackets, M.Item(zero, 0, 0));
      this.maxBytes, this.curBytes := maxBytes, 0;
    }

    /** `now` is what the injected clock reads. The result of Push is not looked at: it is never false. */
    method Enqueue(value: T, sizeBytes: int64, now: int) returns (v: M.Verdict)
      requires Valid()
      modifies this, items, items.buf
      ensures Valid() && v == M.Judge(old(View()), sizeBytes)
      ensures View() == M.Enqueue(old(View()), value, sizeBytes, now)
    {
      hide Ring.Contents, Laws.Counted, M.Wrap;
      if sizeBytes <= 0 { return M.Panics; }
      if sizeBytes > maxBytes { return M.ItemTooLarge; }
      if items.Full() { return M.FullPackets; }
      if M.Wrap(curBytes + sizeBytes) > maxBytes { return M.FullBytes; }
      Laws.EnqueueCounted(View(), value, sizeBytes, now);
      var pushed := items.Push(M.Item(value, sizeBytes, now));
      assert pushed;
      curBytes := M.Wrap(curBytes + sizeBytes);
      v := M.Accepted;
    }

    method Dequeue() returns (item: M.Item<T>, ok: bool)
      requires Valid()
      modifies this, items, items.buf
      ensures Valid() && View() == M.Dequeue(old(View()))
      ensures ok == (old(View()).items != [])
      ensures item == if ok then old(View()).items[0] else items.zero
    {
      ghost var before := View();
      Laws.DequeueCounted(before);
      item, ok := items.Pop();
      if ok {
        assert items.Contents() == before.items[1..];
        curBytes := M.Wrap(curBytes - item.bytes);
      }
    }

    method DropOldest() returns (item: M.Item<T>, ok: bool)
      requires Valid()
      modifies this, items, items.buf
      ensures Valid() && View() == M.Dequeue(old(View()))
      ensures ok == (old(View()).items != [])
      ensures item == if ok then old(View()).items[0] else items.zero
    {
      item, ok := Dequeue();
    }

    method Peek() returns (item: M.Item<T>, ok: bool)
      requires Valid()
      ensures ok == (View().items != [])
      ensures item == if ok then View().items[0] else items.zero
    {
      item, ok := items.Peek();
    }

    method DropExpired(cutoff: int) returns (dropped: seq<M.Item<T>>)
      requires Valid()
      modifies this, items, items.buf
      ensures Valid() && View() == M.DropExpired(old(View()), cutoff)
      ensures dropped == old(View()).items[..M.ExpiredAtHead(old(View()).items, cutoff)]
    {
      hide Ring.Contents, Laws.Counted, Laws.Dropping, M.DropExpired, M.Dequeue;
      ghost var before := View();
      ghost var state := before;
      dropped := [];
      Laws.DroppingStarts(before, cutoff);
      while true
        invariant Valid() && state == View()
        invariant Laws.Dropping(before, state, dropped, cutoff)
        decreases |state.items|
      {
        var head, ok := Peek();
        if !ok || head.enqueued > cutoff {
          Laws.DroppingEnds(before, state, dropped, cutoff);
          return;
        }
        Laws.DroppingStep(before, state, dropped, cutoff);
        var item, _ := Dequeue();
        dropped := dropped + [item];
        state := View();
      }
    }

    /** What the queue says about itself is exact while its budget holds. */
    lemma Sizes()
      requires Valid()
      ensures Len() == |View().items| <= MaxPackets()
      ensures MaxPackets() == View().maxPackets && MaxBytes() == View().maxBytes
      ensures Laws.WithinBudget(View()) ==> Bytes() == M.Sum(View().items) <= MaxBytes()
    {
      items.Sizes();
    }

    function MaxPackets(): int { items.Cap() }
    function MaxBytes(): int64 { maxBytes }
    function Len(): int reads this, items { items.Len() }
    function Bytes(): int64 reads this { curBytes }
  }
}
