/** The pool and its buffers on the heap (internal/packetbuf/pool.go, production build), and the two
  * functions of internal/tun/pooled.go that pass buffer ownership across a device. */
module PacketBuf {
  import opened Basics
  import M = PoolModel

  class Buffer {
    /** The backing array, of the size of the class, and how much of it the slice shows. */
    const store: array<byte>
    var len: nat
    const size: nat
    var pool: Pool?
    var poolIdx: nat
    var released: bool

    constructor (size: nat)
      ensures this.size == size && store.Length == size && fresh(store) && len == size
      ensures pool == null && !released
    {
      this.size, len := size, size;
      store := new byte[size](_ => 0);
      pool, poolIdx, released := null, 0, false;
    }

    ghost predicate Sound()
      reads this
    {
      store.Length == size && len <= size
    }

    ghost function Bytes(): seq<byte>
      requires Sound()
      reads this, store
    {
      store[..len]
    }

    function Cap(): int { size }

    /** What Get does to a buffer before it hands it out. */
    method Prepare(p: Pool, i: nat, n: nat)
      modifies this
      ensures pool == p && poolIdx == i && len == n && !released
    {
      pool, poolIdx, len, released := p, i, n, false;
    }

    /** Only the owner may resize; out of range is a panic that changes nothing. */
    method Resize(n: int, ghost p: Pool, ghost lease: nat) returns (panicked: bool)
      requires p.Valid() && p.Holds(lease, this)
      modifies this`len
      ensures p.Valid() && p.View() == old(p.View())
      ensures panicked == (n < 0 || n > size) && len == if panicked then old(len) else n
    {
      hide M.Exclusive;
      M.HandleHome(p.View(), lease);
      if n < 0 || n > size { return true; }
      ghost var before := p.View();
      len := n;
      panicked := false;
      assert p.View() == before;
    }

    /** `lease` is the Get this handle came from. A release after the flag is set is swallowed. A stale
      * handle, whose buffer has been handed out again since, is let through; exactly then the buffer ends
      * up with an owner and in the pool at once. */
    method Release(ghost p: Pool, ghost lease: nat)
      requires p.Valid() && lease in p.handles && p.handles[lease] == this
      modifies this, p
      ensures p.View() == M.Return(old(p.View()), lease) && p.home == old(p.home)
      ensures p.Valid() <==> lease in old(p.open) || old(released)
    {
      hide M.Exclusive, M.WellFormed, Pool.DistinctStores;
      ghost var before := p.View();
      M.HandleHome(before, lease);
      M.ReturnExclusiveIff(before, lease);
      if released { return; }
      released := true;
      len := size;
      var owner, idx := pool, poolIdx;
      pool := null;
      owner.free := owner.free[idx := owner.free[idx] + multiset{this}];
      owner.open := owner.open - {lease};
      assert p.View().back == before.back + {this};
      assert p.View() == M.Return(before, lease);
    }
  }

  class Pool {
    const classes: seq<nat>
    var free: seq<multiset<Buffer>>
    ghost var handles: map<nat, Buffer>
    ghost var open: set<nat>
    ghost var home: map<Buffer, nat>

    ghost function View(): M.State<Buffer>
      reads this, home.Keys
    {
      M.State(free, handles, open, (set b | b in home && b.released), home)
    }

    ghost predicate Holds(lease: nat, b: Buffer)
      reads this
    {
      lease in open && lease in handles && handles[lease] == b
    }

    ghost predicate Fits(b: Buffer, i: nat)
      reads b
    {
      && b.Sound() && i < |classes| && b.size == classes[i]
      && (!b.released ==> b.pool == this && b.poolIdx == i)
    }

    /** Every buffer matches its class and has a backing array of its own; a buffer in use points
      * back to the pool it returns to. */
    ghost predicate Valid()
      reads this, home.Keys
    {
      && |free| == |classes|
      && M.Exclusive(View())
      && (forall b <- home :: Fits(b, home[b]))
      && DistinctStores(home.Keys)
    }

    static ghost predicate DistinctStores(bs: set<Buffer>) {
      forall b, c | b in bs && c in bs && b != c :: b.store != c.store
    }

    static lemma OneMoreStore(bs: set<Buffer>, b: Buffer)
      requires DistinctStores(bs) && forall c <- bs :: b.store != c.store
      ensures DistinctStores(bs + {b})
    {}

    constructor (classes: seq<nat>)
      ensures Valid() && this.classes == classes && View() == M.Empty(|classes|)
    {
      this.classes := classes;
      free := seq(|classes|, i => multiset{});
      handles, open, home := map[], {}, map[];
    }

    /** A buffer that the sync.Pool of class i still has. */
    method TakeFrom(i: nat, n: nat, ghost lease: nat) returns (b: Buffer)
      requires Valid() && i < |classes| && n <= classes[i] && lease !in handles && free[i] != multiset{}
      modifies this, home.Keys
      ensures Valid() && home == old(home) && b in home
      ensures View() == M.Take(old(View()), i, b, lease)
      ensures b.len == n && b.size == classes[i] && b in old(free[i])
      ensures forall c <- home :: c != b ==> c.len == old(c.len)
    {
      hide M.Exclusive, M.WellFormed, DistinctStores;
      ghost var before := View();
      b :| b in free[i];
      M.FreeHome(before, i, b);
      M.TakeExclusive(before, i, b, lease);
      free := free[i := free[i] - multiset{b}];
      handles := handles[lease := b];
      open := open + {lease};
      b.Prepare(this, i, n);
      assert View().back == before.back - {b};
    }

    /** A new one. */
    method MakeNew(i: nat, n: nat, ghost lease: nat) returns (b: Buffer)
      requires Valid() && i < |classes| && n <= classes[i] && lease !in handles
      modifies this
      ensures Valid() && fresh(b) && fresh(b.store) && b !in old(home) && home == old(home)[b := i]
      ensures View() == M.Make(old(View()), i, b, lease)
      ensures b.len == n && b.size == classes[i]
      ensures forall c <- old(home) :: c.len == old(c.len)
    {
      hide M.Exclusive, M.WellFormed, DistinctStores;
      ghost var before := View();
      b := new Buffer(classes[i]);
      M.MakeExclusive(before, i, b, lease);
      assert DistinctStores(home[b := i].Keys) by {
        OneMoreStore(home.Keys, b);
        assert home[b := i].Keys == home.Keys + {b};
      }
      home := home[b := i];
      handles := handles[lease := b];
      open := open + {lease};
      b.Prepare(this, i, n);
      assert View().back == before.back;
    }

    /** `hit` is whether the sync.Pool of class i still has something to hand out. */
    method Obtain(i: nat, n: nat, hit: bool, ghost lease: nat) returns (b: Buffer)
      requires Valid() && i < |classes| && n <= classes[i] && lease !in handles
      modifies this, home.Keys
      ensures Valid() && Holds(lease, b)
      ensures b.len == n && b.size == classes[i] && fresh(home.Keys - old(home.Keys))
      ensures b in old(home) <==> hit && old(free)[i] != multiset{}
      ensures b in old(home) ==> old(b.released) && View() == M.Take(old(View()), i, b, lease)
      ensures b !in old(home) ==> fresh(b) && fresh(b.store) && View() == M.Make(old(View()), i, b, lease)
      ensures forall c <- old(home) :: c != b ==> c.len == old(c.len)
    {
      hide M.Exclusive, M.WellFormed, DistinctStores;
      if hit && free[i] != multiset{} {
        ghost var before := View();
        b := TakeFrom(i, n, lease);
        M.FreeHome(before, i, b);
      } else {
        b := MakeNew(i, n, lease);
      }
    }

    /** Null stands for the two panics. `lease` is the caller's proof of ownership. */
    method Get(n: int, hit: bool, ghost lease: nat) returns (b: Buffer?)
      requires Valid() && lease !in handles
      modifies this, home.Keys
      ensures Valid() && fresh(home.Keys - old(home.Keys))
      ensures b == null <==> n < 0 || forall i | 0 <= i < |classes| :: classes[i] < n
      ensures b == null ==> View() == old(View())
      ensures b != null ==> Holds(lease, b) && b.len == n && b.size >= n
      ensures b != null ==> handles == old(handles)[lease := b] && open == old(open) + {lease}
      ensures b != null ==>
                var i := M.FirstFit(classes, n, 0);
                && i < |old(free)| == |classes| && b.size == classes[i]
                && (b in old(home) <==> hit && old(free)[i] != multiset{})
                && (b in old(home) ==> old(b.released) && View() == M.Take(old(View()), i, b, lease))
                && (b !in old(home) ==> fresh(b) && fresh(b.store) && View() == M.Make(old(View()), i, b, lease))
      ensures forall c <- old(home) :: c in home && (c != b ==> c.len == old(c.len))
    {
      hide M.Exclusive, M.WellFormed, DistinctStores;
      if n < 0 { return null; }
      for i := 0 to |classes|
        invariant Valid() && View() == old(View()) && handles == old(handles) && home == old(home)
        invariant forall c <- home :: c.len == old(c.len)
        invariant forall j | 0 <= j < i :: classes[j] < n
      {
        if n <= classes[i] {
          b := Obtain(i, n, hit, lease);
          M.FirstFitIs(classes, n, i);
          return;
        }
      }
      return null;
    }

    /** The garbage collector drops a pooled buffer. */
    method Lose(i: nat, b: Buffer)
      requires Valid() && i < |classes|
      modifies this`free
      ensures Valid() && View() == M.Lose(old(View()), i, b)
    {
      hide M.Exclusive, M.WellFormed, DistinctStores;
      ghost var before := View();
      M.LoseExclusive(before, i, b);
      free := free[i := free[i] - multiset{b}];
      assert View() == M.Lose(before, i, b);
    }

    /** Two owners can never touch each other's bytes. */
    lemma OwnersAreDisjoint(l: nat, m: nat)
      requires Valid() && l in open && m in open && l != m
      ensures handles[l] != handles[m] && handles[l].store != handles[m].store
      ensures forall i | 0 <= i < |free| :: handles[l] !in free[i]
    {}
  }

  // ---------------------------------------------------------------- devices

  datatype Incoming = Arrives(packet: seq<byte>) | Fails

  datatype Written = Whole | Partly(n: nat) | Refused

  /** A TUN device: what its reads will find, how its writes will end, and what it was given. */
  class Device {
    var incoming: seq<Incoming>
    var outcomes: seq<Written>
    var given: seq<seq<byte>>

    /** A packet that does not fit, like every other failure, leaves an error and no length. */
    method ReadPacket(buf: array<byte>, limit: nat) returns (n: nat, ok: bool)
      requires limit <= buf.Length
      modifies this`incoming, buf
      ensures ok == (old(incoming) != [] && old(incoming)[0].Arrives? && |old(incoming)[0].packet| <= limit)
      ensures ok ==> n <= limit && buf[..n] == old(incoming)[0].packet
    {
      n, ok := 0, false;
      if incoming == [] { return; }
      var next := incoming[0];
      incoming := incoming[1..];
      if next.Fails? || |next.packet| > limit { return; }
      n := |next.packet|;
      for i := 0 to n
        invariant buf[..i] == next.packet[..i]
      {
        buf[i] := next.packet[i];
      }
      ok := true;
    }

    method WritePacket(data: seq<byte>) returns (n: nat, ok: bool)
      modifies this
      ensures given == old(given) + [data]
      ensures ok <==> old(outcomes) == [] || old(outcomes)[0] == Whole
      ensures n == if old(outcomes) == [] || old(outcomes)[0] == Whole then |data|
                   else if old(outcomes)[0] == Refused then 0 else old(outcomes)[0].n
    {
      given := given + [data];
      var o := if outcomes == [] then Whole else outcomes[0];
      outcomes := if outcomes == [] then [] else outcomes[1..];
      match o {
        case Whole => return |data|, true;
        case Partly(k) => return k, false;
        case Refused => return 0, false;
      }
    }
  }

  /** On success the caller still owns the buffer, which now is the packet; on any failure the buffer
    * has been released, and the lease with it. */
  method ReadInto(d: Device, b: Buffer, ghost p: Pool, ghost lease: nat) returns (n: nat, ok: bool)
    requires p.Valid() && p.Holds(lease, b)
    modifies d, b, b.store, p
    ensures p.Valid()
    ensures ok == (old(d.incoming) != [] && old(d.incoming)[0].Arrives? && |old(d.incoming)[0].packet| <= b.size)
    ensures ok ==> p.View() == old(p.View()) && p.Holds(lease, b)
                   && b.Sound() && n == b.len && b.Bytes() == old(d.incoming)[0].packet
    ensures !ok ==> n == 0 && p.View() == M.Return(old(p.View()), lease) && b.released && lease !in p.open
  {
    hide M.Exclusive, M.WellFormed, Pool.DistinctStores;
    M.HandleHome(p.View(), lease);
    var panicked := b.Resize(b.Cap(), p, lease);
    n, ok := d.ReadPacket(b.store, b.len);
    if !ok {
      b.Release(p, lease);
      return 0, false;
    }
    panicked := b.Resize(n, p, lease);
  }

  /** Whether or not the write succeeds, the device has seen the buffer's bytes once and the buffer
    * has been released once. */
  method WriteFrom(d: Device, b: Buffer, ghost p: Pool, ghost lease: nat) returns (n: nat, ok: bool)
    requires p.Valid() && p.Holds(lease, b) && b.Sound()
    modifies d, b, p
    ensures p.Valid()
    ensures d.given == old(d.given) + [old(b.Bytes())]
    ensures ok <==> old(d.outcomes) == [] || old(d.outcomes)[0] == Whole
    ensures n == if old(d.outcomes) == [] || old(d.outcomes)[0] == Whole then old(b.len)
                 else if old(d.outcomes)[0] == Refused then 0 else old(d.outcomes)[0].n
    ensures p.View() == M.Return(old(p.View()), lease) && b.released && lease !in p.open
  {
    hide M.Exclusive, M.WellFormed, Pool.DistinctStores;
    M.HandleHome(p.View(), lease);
    n, ok := d.WritePacket(b.store[..b.len]);
    b.Release(p, lease);
  }
}
