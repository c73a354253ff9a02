/** Who holds which packet buffer (internal/packetbuf/pool.go), independent of what a buffer is. */
module PoolModel {

  /** `free` holds the bag of each size class; `handles` remembers the buffer of every Get there has
    * been, `open` which of them have not been released; `back` is the set of buffers whose released
    * flag is set, and `home` the class each buffer was made for. */
  datatype State<!B> = State(
    free: seq<multiset<B>>, handles: map<nat, B>, open: set<nat>, back: set<B>, home: map<B, nat>)

  function Empty<B>(classes: nat): State<B> { State(seq(classes, i => multiset{}), map[], {}, {}, map[]) }

  /** The pool of class i hands out a buffer it holds. */
  function Take<B>(s: State<B>, i: nat, b: B, lease: nat): State<B>
    requires i < |s.free|
  {
    s.(free := s.free[i := s.free[i] - multiset{b}], back := s.back - {b},
       handles := s.handles[lease := b], open := s.open + {lease})
  }

  /** The pool of class i makes a new buffer. */
  function Make<B>(s: State<B>, i: nat, b: B, lease: nat): State<B> {
    s.(home := s.home[b := i], handles := s.handles[lease := b], open := s.open + {lease})
  }

  /** Release through the handle of `lease`: swallowed when the released flag is already set. */
  function Return<B>(s: State<B>, lease: nat): State<B>
    requires lease in s.handles && s.handles[lease] in s.home && s.home[s.handles[lease]] < |s.free|
  {
    var b := s.handles[lease];
    if b in s.back then s
    else
      var i := s.home[b];
      s.(free := s.free[i := s.free[i] + multiset{b}], back := s.back + {b}, open := s.open - {lease})
  }

  /** The garbage collector may empty a sync.Pool at any time. */
  function Lose<B>(s: State<B>, i: nat, b: B): State<B>
    requires i < |s.free|
  {
    s.(free := s.free[i := s.free[i] - multiset{b}])
  }

  // ---------------------------------------------------------------- ownership

  ghost predicate WellFormed<B>(s: State<B>) {
    && (forall l <- s.handles :: s.handles[l] in s.home)
    && (forall b <- s.home :: s.home[b] < |s.free|)
    && s.open <= s.handles.Keys
    && s.back <= s.home.Keys
    && (forall i, b | 0 <= i < |s.free| && b in s.free[i] :: b in s.home)
  }

  /** One owner at a time: different outstanding leases hold different buffers, none of which is in a
    * bag; a bag holds each buffer once, in its own class; and what nobody holds has been released. */
  ghost predicate Exclusive<B>(s: State<B>) {
    && WellFormed(s)
    && (forall l, m | l in s.open && m in s.open && l != m :: s.handles[l] != s.handles[m])
    && (forall l <- s.open :: s.handles[l] !in s.back)
    && (forall i, b | 0 <= i < |s.free| && b in s.free[i] :: b in s.back && s.home[b] == i && s.free[i][b] == 1)
    && (forall b <- s.home :: b in s.back || exists l :: l in s.open && s.handles[l] == b)
  }

  /** The buffer of an outstanding lease is in no bag. */
  lemma HeldIsNotFree<B>(s: State<B>, l: nat, i: nat)
    requires Exclusive(s) && l in s.open && i < |s.free|
    ensures s.handles[l] !in s.free[i]
  {}

  lemma TakeExclusive<B>(s: State<B>, i: nat, b: B, lease: nat)
    requires Exclusive(s) && i < |s.free| && b in s.free[i] && lease !in s.handles
    ensures Exclusive(Take(s, i, b, lease))
  {
    var r := Take(s, i, b, lease);
    forall c | c in r.home ensures c in r.back || exists l :: l in r.open && r.handles[l] == c {
      if c == b { assert lease in r.open && r.handles[lease] == c; }
      else if c !in r.back {
        var l :| l in s.open && s.handles[l] == c;
        assert l in r.open && r.handles[l] == c;
      }
    }
  }

  lemma MakeExclusive<B>(s: State<B>, i: nat, b: B, lease: nat)
    requires Exclusive(s) && i < |s.free| && b !in s.home && lease !in s.handles
    ensures Exclusive(Make(s, i, b, lease))
  {
    var r := Make(s, i, b, lease);
    forall c | c in r.home ensures c in r.back || exists l :: l in r.open && r.handles[l] == c {
      if c == b { assert lease in r.open && r.handles[lease] == c; }
      else if c !in r.back {
        var l :| l in s.open && s.handles[l] == c;
        assert l in r.open && r.handles[l] == c;
      }
    }
  }

  lemma ReturnOpen<B>(s: State<B>, lease: nat)
    requires Exclusive(s) && lease in s.open
    ensures Exclusive(Return(s, lease))
  {
    var r := Return(s, lease);
    forall c | c in r.home ensures c in r.back || exists l :: l in r.open && r.handles[l] == c {
      if c !in r.back {
        var l :| l in s.open && s.handles[l] == c;
        assert l in r.open && r.handles[l] == c;
      }
    }
  }

  /** Releasing through a handle keeps ownership exclusive exactly when the handle has not been
    * released yet, or its buffer has not been handed out again since. */
  lemma ReturnExclusiveIff<B>(s: State<B>, lease: nat)
    requires Exclusive(s) && lease in s.handles
    ensures Exclusive(Return(s, lease)) <==> lease in s.open || s.handles[lease] in s.back
  {
    var b := s.handles[lease];
    if lease in s.open {
      ReturnOpen(s, lease);
    } else if b !in s.back {
      var l :| l in s.open && s.handles[l] == b;
      var r := Return(s, lease);
      assert l in r.open && r.handles[l] in r.back;
    }
  }

  lemma LoseExclusive<B>(s: State<B>, i: nat, b: B)
    requires Exclusive(s) && i < |s.free|
    ensures Exclusive(Lose(s, i, b))
  {}

  lemma HandleHome<B>(s: State<B>, lease: nat)
    requires Exclusive(s) && lease in s.handles
    ensures s.handles[lease] in s.home && s.home[s.handles[lease]] < |s.free|
    ensures lease in s.open ==> s.handles[lease] !in s.back
  {}

  lemma FreeHome<B>(s: State<B>, i: nat, b: B)
    requires Exclusive(s) && i < |s.free| && b in s.free[i]
    ensures b in s.home && s.home[b] == i && b in s.back
  {}

  // ---------------------------------------------------------------- runs

  datatype Op<B> = TakeOp(i: nat, b: B) | MakeOp(i: nat, b: B) | ReturnOp(lease: nat) | LoseOp(i: nat, b: B)

  /** The lease of the n-th operation is n. What the pool cannot do does not happen. */
  function Step<B>(s: State<B>, n: nat, op: Op<B>): State<B> {
    match op
    case TakeOp(i, b) => if i < |s.free| && b in s.free[i] then Take(s, i, b, n) else s
    case MakeOp(i, b) => if i < |s.free| && b !in s.home then Make(s, i, b, n) else s
    case ReturnOp(l) =>
      if l in s.handles && s.handles[l] in s.home && s.home[s.handles[l]] < |s.free| then Return(s, l) else s
    case LoseOp(i, b) => if i < |s.free| then Lose(s, i, b) else s
  }

  function Run<B>(classes: nat, ops: seq<Op<B>>): State<B> {
    if ops == [] then Empty(classes)
    else Step(Run(classes, ops[..|ops| - 1]), |ops| - 1, ops[|ops| - 1])
  }

  /** No handle is released twice. */
  ghost predicate ReleasedOnce<B>(ops: seq<Op<B>>) {
    forall i, j | 0 <= i < j < |ops| && ops[i].ReturnOp? && ops[j].ReturnOp? :: ops[i].lease != ops[j].lease
  }

  lemma {:induction false} LeasesStayOpen<B>(classes: nat, ops: seq<Op<B>>, l: nat)
    requires l in Run(classes, ops).handles && forall i | 0 <= i < |ops| && ops[i].ReturnOp? :: ops[i].lease != l
    ensures l in Run(classes, ops).open
  {
    if ops != [] {
      var n := |ops| - 1;
      if l in Run(classes, ops[..n]).handles { LeasesStayOpen(classes, ops[..n], l); }
    }
  }

  lemma {:induction false} LeasesAreOld<B>(classes: nat, ops: seq<Op<B>>)
    ensures forall l <- Run(classes, ops).handles :: l < |ops|
  {
    if ops != [] { LeasesAreOld(classes, ops[..|ops| - 1]); }
  }

  /** Whatever the pool hands out, makes and loses: as long as every handle is released at most once,
    * every buffer has at most one owner in every reachable state. */
  lemma {:induction false} RunExclusive<B>(classes: nat, ops: seq<Op<B>>)
    requires ReleasedOnce(ops)
    ensures Exclusive(Run(classes, ops))
  {
    if ops != [] {
      var n := |ops| - 1;
      var s, op := Run(classes, ops[..n]), ops[n];
      RunExclusive(classes, ops[..n]);
      LeasesAreOld(classes, ops[..n]);
      match op {
        case TakeOp(i, b) => if i < |s.free| && b in s.free[i] { TakeExclusive(s, i, b, n); }
        case MakeOp(i, b) => if i < |s.free| && b !in s.home { MakeExclusive(s, i, b, n); }
        case ReturnOp(l) =>
          if l in s.handles {
            LeasesStayOpen(classes, ops[..n], l);
            ReturnOpen(s, l);
          }
        case LoseOp(i, b) => if i < |s.free| { LoseExclusive(s, i, b); }
      }
    }
  }

  // ---------------------------------------------------------------- nothing leaks

  /** Handing out, a held buffer or a new one: the lease gets that buffer, which leaves its bag, and
    * nothing else changes hands. */
  lemma HandsOut<B>(s: State<B>, i: nat, b: B, lease: nat, k: nat, c: B)
    requires Exclusive(s) && i < |s.free| && lease !in s.handles && k < |s.free|
    ensures b in s.free[i] ==> OneHandedOut(s, Take(s, i, b, lease), b, lease, k, c)
                               && Take(s, i, b, lease).home == s.home
    ensures b !in s.home ==> OneHandedOut(s, Make(s, i, b, lease), b, lease, k, c)
                             && Make(s, i, b, lease).home == s.home[b := i]
  {}

  ghost predicate OneHandedOut<B>(s: State<B>, r: State<B>, b: B, lease: nat, k: nat, c: B)
    requires k < |s.free|
  {
    && r.handles == s.handles[lease := b] && r.open == s.open + {lease}
    && |r.free| == |s.free| && b !in r.free[k] && (c != b ==> r.free[k][c] == s.free[k][c])
    && (c in r.back <==> c in s.back && c != b)
  }

  /** A release through an open lease closes it and puts the buffer, once, into the bag of its own class,
    * and into no other. */
  lemma ReturnFrees<B>(s: State<B>, lease: nat, k: nat, c: B)
    requires Exclusive(s) && lease in s.open && k < |s.free|
    ensures var b, r := s.handles[lease], Return(s, lease);
            && r.handles == s.handles && r.home == s.home && |r.free| == |s.free|
            && r.open == s.open - {lease} && (c in r.back <==> c in s.back || c == b)
            && r.free[k][c] == if c == b then (if k == s.home[b] then 1 else 0) else s.free[k][c]
  {
    assert s.handles[lease] !in s.free[k];
  }

  /** Every buffer that has been released is in the bag of its class. */
  ghost predicate Kept<B>(s: State<B>) {
    forall b <- s.back :: Pooled(s, b)
  }

  /** Unless the garbage collector takes some, every buffer ever made is held by exactly one open lease or
    * lies in the bag of its class, after any run that releases each handle at most once. */
  lemma {:induction false} NothingLeaks<B>(classes: nat, ops: seq<Op<B>>)
    requires ReleasedOnce(ops) && forall i | 0 <= i < |ops| :: !ops[i].LoseOp?
    ensures var s := Run(classes, ops);
            Exclusive(s) && Kept(s) && forall b <- s.home :: Held(s, b) || Pooled(s, b)
  {
    RunExclusive(classes, ops);
    if ops != [] {
      var n := |ops| - 1;
      var s, op := Run(classes, ops[..n]), ops[n];
      RunExclusive(classes, ops[..n]);
      NothingLeaks(classes, ops[..n]);
      LeasesAreOld(classes, ops[..n]);
      StepKeeps(s, n, op);
    }
    EveryOneSomewhere(Run(classes, ops));
  }

  ghost predicate Held<B>(s: State<B>, b: B) { exists l :: l in s.open && l in s.handles && s.handles[l] == b }

  predicate Pooled<B(==)>(s: State<B>, b: B) { b in s.home && s.home[b] < |s.free| && b in s.free[s.home[b]] }

  lemma EveryOneSomewhere<B>(s: State<B>)
    requires Exclusive(s) && Kept(s)
    ensures forall b <- s.home :: Held(s, b) || Pooled(s, b)
  {
    forall b | b in s.home && b !in s.back ensures Held(s, b) {
      var l :| l in s.open && s.handles[l] == b;
    }
  }

  lemma StepKeeps<B>(s: State<B>, n: nat, op: Op<B>)
    requires Exclusive(s) && Kept(s) && !op.LoseOp? && n !in s.handles
    ensures Kept(Step(s, n, op))
  {
    match op
    case TakeOp(i, b) => if i < |s.free| && b in s.free[i] { TakeKeeps(s, i, b, n); }
    case MakeOp(i, b) => if i < |s.free| && b !in s.home { MakeKeeps(s, i, b, n); }
    case ReturnOp(l) => if l in s.handles { ReturnKeeps(s, l); }
  }

  lemma TakeKeeps<B>(s: State<B>, i: nat, b: B, lease: nat)
    requires Exclusive(s) && Kept(s) && i < |s.free| && b in s.free[i]
    ensures Kept(Take(s, i, b, lease))
  {
    forall c | c in s.back && c != b ensures Pooled(Take(s, i, b, lease), c) { assert Pooled(s, c); }
  }

  lemma MakeKeeps<B>(s: State<B>, i: nat, b: B, lease: nat)
    requires Exclusive(s) && Kept(s) && i < |s.free| && b !in s.home
    ensures Kept(Make(s, i, b, lease))
  {
    forall c | c in s.back ensures Pooled(Make(s, i, b, lease), c) { assert Pooled(s, c); }
  }

  lemma ReturnKeeps<B>(s: State<B>, lease: nat)
    requires Exclusive(s) && Kept(s) && lease in s.handles
    ensures Kept(Return(s, lease))
  {
    forall c | c in s.back ensures Pooled(Return(s, lease), c) { assert Pooled(s, c); }
  }

  // ---------------------------------------------------------------- size classes

  ghost predicate Ascending(classes: seq<nat>) { forall i, j | 0 <= i < j < |classes| :: classes[i] < classes[j] }

  /** The first class, from k on, that holds n bytes. */
  function FirstFit(classes: seq<nat>, n: int, k: nat): (i: nat)
    requires k <= |classes|
    ensures k <= i <= |classes|
    ensures forall j | k <= j < i :: classes[j] < n
    ensures i < |classes| ==> n <= classes[i]
    decreases |classes| - k
  {
    if k == |classes| || n <= classes[k] then k else FirstFit(classes, n, k + 1)
  }

  lemma FirstFitIs(classes: seq<nat>, n: int, i: nat)
    requires i < |classes| && n <= classes[i] && forall j | 0 <= j < i :: classes[j] < n
    ensures FirstFit(classes, n, 0) == i
  {
    assert forall j | 0 <= j < i :: !(n <= classes[j]);
  }

  /** Of ascending classes the first that fits is the smallest that fits. */
  lemma FirstFitIsSmallest(classes: seq<nat>, n: int, j: nat)
    requires Ascending(classes) && j < |classes| && n <= classes[j]
    ensures FirstFit(classes, n, 0) < |classes| && classes[FirstFit(classes, n, 0)] <= classes[j]
  {
    var i := FirstFit(classes, n, 0);
    assert i <= j;
  }
}
