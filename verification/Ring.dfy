/** The fixed-capacity circular buffer of internal/bounded/ring.go. */
module BoundedRing {

  class Ring<T(==)> {
    /** The zero value of T, which a slot holds while it is free. */
    const zero: T
    const buf: array<T>
    var head: nat
    var n: nat

    /** Where the i-th element from the oldest lives. */
    static function Slot(head: nat, i: nat, length: nat): int {
      if head + i < length then head + i else head + i - length
    }

    ghost predicate Shape()
      reads this
    {
      buf.Length > 0 && head < buf.Length && n <= buf.Length
    }

    ghost predicate Valid()
      reads this, buf
    {
      && Shape()
      && forall i | n <= i < buf.Length :: buf[Slot(head, i, buf.Length)] == zero
    }

    /** The elements, oldest first. */
    ghost function Contents(): (s: seq<T>)
      requires Shape()
      reads this, buf
      ensures |s| == n
    {
      seq(n, i requires 0 <= i < n && Shape() reads this, buf => buf[Slot(head, i, buf.Length)])
    }

    constructor (capacity: nat, zero: T)
      requires capacity > 0
      ensures Valid() && fresh(buf) && buf.Length == capacity && Contents() == [] && this.zero == zero
    {
      this.zero, head, n := zero, 0, 0;
      buf := new T[capacity](_ => zero);
    }

    static lemma WrapAround(x: nat, length: nat)
      requires length > 0 && x < 2 * length
      ensures x % length == if x < length then x else x - length
    {}

    function Cap(): int { buf.Length }
    function Len(): int reads this { n }
    predicate Empty() reads this { n == 0 }
    predicate Full() reads this { n == buf.Length }

    lemma Sizes()
      requires Shape()
      ensures Cap() == buf.Length && Len() == |Contents()|
      ensures (Empty() <==> Contents() == []) && (Full() <==> |Contents()| == Cap())
    {}

    /** Writes one element behind the newest. */
    method Store(v: T)
      requires Valid() && n < buf.Length
      modifies this`n, buf
      ensures Valid() && Contents() == old(Contents()) + [v]
    {
      WrapAround(head + n, buf.Length);
      buf[(head + n) % buf.Length] := v;
      n := n + 1;
      assert Contents() == old(Contents()) + [v];
    }

    method Push(v: T) returns (ok: bool)
      requires Valid()
      modifies this`n, buf
      ensures Valid() && ok == (old(n) < buf.Length)
      ensures Contents() == old(Contents()) + if ok then [v] else []
    {
      if n == buf.Length { return false; }
      Store(v);
      ok := true;
    }

    /** Takes the oldest element out and leaves its slot zero. */
    method Advance()
      requires Valid() && n > 0
      modifies this`head, this`n, buf
      ensures Valid() && Contents() == old(Contents())[1..]
    {
      ghost var oldHead := head;
      WrapAround(head + 1, buf.Length);
      buf[head] := zero;
      head := (head + 1) % buf.Length;
      n := n - 1;
      forall i | n <= i < buf.Length ensures buf[Slot(head, i, buf.Length)] == zero {
        if i + 1 < buf.Length {
          assert Slot(head, i, buf.Length) == Slot(oldHead, i + 1, buf.Length);
        }
      }
      forall i | 0 <= i < n ensures Contents()[i] == old(Contents())[i + 1] {
        assert Slot(head, i, buf.Length) == Slot(oldHead, i + 1, buf.Length);
      }
    }

    method Pop() returns (v: T, ok: bool)
      requires Valid()
      modifies this`head, this`n, buf
      ensures Valid() && ok == (old(n) > 0)
      ensures ok ==> [v] + Contents() == old(Contents())
      ensures !ok ==> v == zero && Contents() == old(Contents())
    {
      if n == 0 { return zero, false; }
      v := buf[head];
      Advance();
      ok := true;
    }

    method Peek() returns (v: T, ok: bool)
      requires Valid()
      ensures ok == (n > 0) && v == if ok then Contents()[0] else zero
    {
      if n == 0 { return zero, false; }
      return buf[head], true;
    }

    method PushEvict(v: T) returns (dropped: T, evicted: bool)
      requires Valid()
      modifies this`head, this`n, buf
      ensures Valid() && evicted == (old(n) == buf.Length)
      ensures evicted ==> [dropped] + Contents() == old(Contents()) + [v]
      ensures !evicted ==> dropped == zero && Contents() == old(Contents()) + [v]
    {
      dropped, evicted := zero, false;
      if n == buf.Length {
        dropped := buf[head];
        Advance();
        evicted := true;
      }
      Store(v);
    }

    method Reset()
      requires Valid()
      modifies this`head, this`n, buf
      ensures Valid() && Contents() == [] && forall i | 0 <= i < buf.Length :: buf[i] == zero
    {
      for i := 0 to buf.Length
        invariant forall j | 0 <= j < i :: buf[j] == zero
      {
        buf[i] := zero;
      }
      head, n := 0, 0;
    }
  }
}
