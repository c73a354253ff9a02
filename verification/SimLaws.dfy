/** Accounting of the shared bottleneck, and what the reported throughputs can add up to. */
module SimLaws {
  import opened Arith
  import opened AimdModel
  import opened SimModel

  // ---------------------------------------------------------------- one step

  /** Nothing appears or vanishes at the link, whose queue stays within its buffer. */
  lemma LinkAccounts(queue: real, drain: real, buffer: real, offered: real)
    requires 0.0 <= queue <= buffer && offered >= 0.0 && drain >= 0.0
    ensures var p := LinkStep(queue, drain, buffer, offered);
            && queue + offered == p.queue + p.drained + p.dropped
            && 0.0 <= p.queue <= buffer
            && p.drained == MinReal(queue + offered, drain)
            && p.dropped >= 0.0
            && (p.dropped > 0.0 ==> p.queue == buffer)
  {}

  function MinReal(a: real, b: real): real { if a < b then a else b }

  lemma Credit(c: real, t: real, served: real)
    requires c >= 0.0 && t >= 0.0 && served > 0.0
    ensures var f := Fraction(c + t, served); c * f + t * f == MinReal(c + t, served)
  {
    var f, total := Fraction(c + t, served), c + t;
    assert c * f + t * f == total * f;
    if total > served { assert total * (served / total) == served; }
  }

  /** What one step adds to the sums. */
  lemma TransferAccounts(g: Config, s: Sim)
    requires SimOk(g, s)
    ensures var r := Transfer(g, s);
            && Served(g) > 0.0
            && s.queue + (r.offered - s.offered) == r.queue + (r.drained - s.drained) + (r.dropped - s.dropped)
            && r.offered >= s.offered && r.drained >= s.drained && r.dropped >= s.dropped
            && var credited := (r.ctrlBytes + r.tcpBytes) - (s.ctrlBytes + s.tcpBytes);
               if Measuring(g, s) then credited == MinReal(r.offered - s.offered, Served(g)) <= r.drained - s.drained
               else credited == 0.0
  {
    hide LinkStep, Fraction, CtrlOffer, TcpOffer, Served, Measuring;
    OfferSigns(g, s);
    var c, t := CtrlOffer(g, s), TcpOffer(g, s);
    LinkAccounts(s.queue, Served(g), g.buffer, c + t);
    Credit(c, t, Served(g));
  }

  // ---------------------------------------------------------------- whole runs

  /** How many of the first n steps fall into the measurement window. */
  function Measured(g: Config, now: int, n: nat): nat {
    if n == 0 then 0
    else Measured(g, now, n - 1) + if now + (n - 1) * g.stepNs >= g.warmupNs then 1 else 0
  }

  lemma StepKeeps(g: Config, s: Sim)
    requires SimOk(g, s)
    ensures var r, m := Step(g, s), Transfer(g, s);
            && r.now == s.now + g.stepNs && m.now == s.now
            && r.queue == m.queue && r.ctrlBytes == m.ctrlBytes && r.tcpBytes == m.tcpBytes
            && r.offered == m.offered && r.drained == m.drained && r.dropped == m.dropped
  {}

  lemma {:induction false} NowAfter(g: Config, s: Sim, n: nat)
    requires SimOk(g, s)
    ensures Steps(g, s, n).now == s.now + n * g.stepNs
  {
    hide SimOk, Step;
    if n > 0 {
      NowAfter(g, s, n - 1);
      StepKeeps(g, Steps(g, s, n - 1));
      assert n * g.stepNs == (n - 1) * g.stepNs + g.stepNs;
    }
  }

  /** Over any number of steps: offered = queued + drained + dropped, the queue stays within the
    * buffer, the flows are credited no more than the link drained, and no more than the link could
    * serve in the measured steps. */
  lemma {:induction false} RunAccounts(g: Config, s: Sim, n: nat)
    requires SimOk(g, s)
    ensures var r := Steps(g, s, n);
            && s.queue + (r.offered - s.offered) == r.queue + (r.drained - s.drained) + (r.dropped - s.dropped)
            && 0.0 <= r.queue <= g.buffer
            && 0.0 <= r.dropped - s.dropped
            && (r.ctrlBytes + r.tcpBytes) - (s.ctrlBytes + s.tcpBytes) <= r.drained - s.drained
            && (r.ctrlBytes + r.tcpBytes) - (s.ctrlBytes + s.tcpBytes)
               <= Measured(g, s.now, n) as real * Served(g)
  {
    hide Step, Transfer, Served;
    if n > 0 {
      var m := Steps(g, s, n - 1);
      RunAccounts(g, s, n - 1);
      NowAfter(g, s, n - 1);
      StepKeeps(g, m);
      TransferAccounts(g, m);
      OneMore(Measured(g, s.now, n - 1), Served(g));
    }
  }

  lemma OneMore(k: nat, x: real)
    ensures (k + 1) as real * x == k as real * x + x
  {}

  // ---------------------------------------------------------------- reported throughput

  function End(g: Config): int { g.warmupNs + g.measureNs }

  /** The number of steps `Run` takes when the clock shows `now`. */
  function LoopCountFrom(g: Config, now: int): nat
    requires ConfigOk(g)
  {
    if now >= End(g) then 0 else CeilDiv(End(g) - now, g.stepNs)
  }

  /** The number of steps from time zero, and how many of them are measured. */
  function LoopCount(g: Config): nat
    requires ConfigOk(g)
  {
    LoopCountFrom(g, 0)
  }

  function MeasuredSteps(g: Config): int
    requires ConfigOk(g)
  {
    CeilDiv(End(g), g.stepNs) - CeilDiv(g.warmupNs, g.stepNs)
  }

  lemma CeilDivIff(a: nat, b: nat, k: nat)
    requires b > 0
    ensures CeilDiv(a, b) <= k <==> a <= k * b
  {
    var x := a + b - 1;
    var q, r := x / b, x % b;
    assert x == q * b + r;
    assert q <= k ==> q * b <= k * b;
    assert q >= k + 1 ==> q * b >= (k + 1) * b;
    assert (k + 1) * b == k * b + b;
  }

  lemma {:induction false} MeasuredClosed(g: Config, n: nat)
    requires ConfigOk(g)
    ensures var w := CeilDiv(g.warmupNs, g.stepNs);
            Measured(g, 0, n) == if n <= w then 0 else n - w
  {
    if n > 0 {
      MeasuredClosed(g, n - 1);
      CeilDivIff(g.warmupNs, g.stepNs, n - 1);
    }
  }

  lemma BeforeEnd(g: Config, now: int, n: nat)
    requires ConfigOk(g) && n > 0 && now + (n - 1) * g.stepNs < End(g)
    ensures now < End(g)
  {
    MulMono(0, n - 1, g.stepNs);
  }

  lemma LoopLength(g: Config)
    requires ConfigOk(g)
    ensures LoopCount(g) >= 1 && LoopCount(g) * g.stepNs >= End(g) && (LoopCount(g) - 1) * g.stepNs < End(g)
    ensures MeasuredSteps(g) == Measured(g, 0, LoopCount(g))
  {
    var n := LoopCount(g);
    CeilDivIff(End(g), g.stepNs, n);
    CeilDivIff(End(g), g.stepNs, 0);
    CeilDivIff(End(g), g.stepNs, n - 1);
    CeilDivIff(g.warmupNs, g.stepNs, n);
    MeasuredClosed(g, n);
  }

  /** A simulation as the program builds one: time zero, nothing counted. */
  ghost predicate Ready(g: Config, s: Sim) {
    SimOk(g, s) && s.now == 0 && s.ctrlBytes == 0.0 && s.tcpBytes == 0.0
  }

  function Finish(g: Config, s: Sim): Sim
    requires SimOk(g, s)
  {
    Steps(g, Primed(g, s), LoopCount(g))
  }

  /** The sum of the two throughputs that Run reports. */
  function Throughput(g: Config, s: Sim): real
    requires SimOk(g, s)
  {
    WindowPositive(g);
    (Finish(g, s).ctrlBytes + Finish(g, s).tcpBytes) / Seconds(g.measureNs)
  }

  lemma WindowPositive(g: Config)
    requires ConfigOk(g)
    ensures Seconds(g.measureNs) > 0.0
  {}

  /** No simulation of this shape reports more than the link can carry. */
  ghost predicate Honest(g: Config) {
    forall s: Sim :: Ready(g, s) ==> Throughput(g, s) <= g.capacity
  }

  lemma ThroughputBound(g: Config, s: Sim)
    requires Ready(g, s)
    ensures Finish(g, s).ctrlBytes + Finish(g, s).tcpBytes <= MeasuredSteps(g) as real * Served(g)
  {
    hide Steps, Served;
    RunAccounts(g, Primed(g, s), LoopCount(g));
    LoopLength(g);
  }

  lemma ScaleBound(bytes: real, m: int, capacity: real, step: int, window: int)
    requires capacity > 0.0 && step >= 1 && window >= 1
    requires bytes <= m as real * (capacity * Seconds(step)) && m * step <= window
    ensures bytes / Seconds(window) <= capacity
  {
    var b := SECOND as real;
    assert m as real * (capacity * Seconds(step)) == capacity * ((m * step) as real / b);
    assert (m * step) as real / b <= Seconds(window);
    MulRealMono((m * step) as real / b, Seconds(window), capacity);
    DivLe(bytes, Seconds(window), capacity);
  }

  lemma MulRealMono(x: real, y: real, c: real)
    requires x <= y && c >= 0.0
    ensures c * x <= c * y
  {}

  lemma DivLe(x: real, y: real, c: real)
    requires y > 0.0
    ensures x / y <= c <==> x <= c * y
  {
    var q := x / y;
    assert (q - c) * y == x - c * y by { assert q * y == x; }
    assert q > c ==> (q - c) * y > 0.0;
    assert q <= c ==> (c - q) * y >= 0.0;
  }

  // ---------------------------------------------------------------- the saturated link

  /** A controller pinned to a rate no smaller than the link's. */
  function Pinned(g: Config): Sim
    requires ConfigOk(g)
  {
    var r := g.capacity.Floor + 1;
    Sim(0, 0.0, Control(0, r, r, r, 0, 0, 0, 0, false, 0, 0), Tcp(0.0, 0.0, 0.0, 0, false),
        0.0, 0.0, 0.0, 0.0, 0.0)
  }

  ghost predicate Saturating(g: Config, s: Sim) {
    SimOk(g, s) && s.ctl.min == s.ctl.rate == s.ctl.max && s.ctl.rate as real >= g.capacity
  }

  lemma StepSaturates(g: Config, s: Sim)
    requires Saturating(g, s)
    ensures Saturating(g, Step(g, s))
    ensures var r := Step(g, s);
            (r.ctrlBytes + r.tcpBytes) - (s.ctrlBytes + s.tcpBytes)
            == if Measuring(g, s) then Served(g) else 0.0
  {
    StepKeeps(g, s);
    TransferAccounts(g, s);
    OffersEnough(g, s);
    TickPinned(g, Transfer(g, s));
  }

  lemma OffersEnough(g: Config, s: Sim)
    requires Saturating(g, s)
    ensures Transfer(g, s).offered - s.offered >= Served(g)
    ensures Saturating(g, Transfer(g, s))
  {
    OfferSigns(g, s);
    var dt := Seconds(g.stepNs);
    MulRealMono(g.capacity, s.ctl.rate as real, dt);
    assert Transfer(g, s).offered == s.offered + (CtrlOffer(g, s) + TcpOffer(g, s));
  }

  lemma TickPinned(g: Config, s: Sim)
    requires Saturating(g, s)
    ensures Saturating(g, React(g, s))
  {}

  lemma {:induction false} RunSaturates(g: Config, s: Sim, n: nat)
    requires Saturating(g, s)
    ensures var r := Steps(g, s, n);
            Saturating(g, r)
            && (r.ctrlBytes + r.tcpBytes) - (s.ctrlBytes + s.tcpBytes)
               == Measured(g, s.now, n) as real * Served(g)
  {
    hide Step, Served;
    if n > 0 {
      RunSaturates(g, s, n - 1);
      NowAfter(g, s, n - 1);
      StepSaturates(g, Steps(g, s, n - 1));
      OneMore(Measured(g, s.now, n - 1), Served(g));
    }
  }

  /** The reported throughputs never sum to more than the capacity exactly when the measured steps
    * fit into the measurement window; a window the steps overrun is one a busy link exceeds. */
  lemma ThroughputIff(g: Config)
    requires ConfigOk(g)
    ensures Honest(g) <==> MeasuredSteps(g) * g.stepNs <= g.measureNs
  {
    hide Finish, MeasuredSteps, Seconds, LoopCount;
    if MeasuredSteps(g) * g.stepNs <= g.measureNs {
      forall s: Sim | Ready(g, s) ensures Throughput(g, s) <= g.capacity {
        ThroughputBound(g, s);
        ScaleBound(Finish(g, s).ctrlBytes + Finish(g, s).tcpBytes,
                   MeasuredSteps(g), g.capacity, g.stepNs, g.measureNs);
      }
    } else {
      var s := Pinned(g);
      assert Ready(g, s);
      PinnedExceeds(g);
    }
  }

  lemma PinnedExceeds(g: Config)
    requires ConfigOk(g) && MeasuredSteps(g) * g.stepNs > g.measureNs
    ensures Ready(g, Pinned(g)) && Throughput(g, Pinned(g)) > g.capacity
  {
    hide Steps, Seconds, MeasuredSteps, LoopCount;
    var s := Pinned(g);
    RunSaturates(g, Primed(g, s), LoopCount(g));
    LoopLength(g);
    var bytes, m := Finish(g, s).ctrlBytes + Finish(g, s).tcpBytes, MeasuredSteps(g);
    Overruns(bytes, m, g.capacity, g.stepNs, g.measureNs);
  }

  lemma Overruns(bytes: real, m: int, capacity: real, step: int, window: int)
    requires capacity > 0.0 && step >= 1 && window >= 1
    requires bytes == m as real * (capacity * Seconds(step)) && m * step > window
    ensures Seconds(window) > 0.0 && bytes / Seconds(window) > capacity
  {
    var b := SECOND as real;
    assert m as real * (capacity * Seconds(step)) == capacity * ((m * step) as real / b);
    var d := (m * step) as real / b - Seconds(window);
    assert d > 0.0;
    assert capacity * d > 0.0;
    DivLe(bytes, Seconds(window), capacity);
  }

  /** Whole numbers of steps in the warm-up and in the window are enough. */
  lemma DividingStepsHonest(g: Config)
    requires ConfigOk(g) && g.warmupNs % g.stepNs == 0 && g.measureNs % g.stepNs == 0
    ensures MeasuredSteps(g) * g.stepNs == g.measureNs && Honest(g)
  {
    var a, b := g.warmupNs / g.stepNs, g.measureNs / g.stepNs;
    DivSign(g.warmupNs, g.stepNs);
    DivSign(g.measureNs, g.stepNs);
    assert g.warmupNs == a * g.stepNs && g.measureNs == b * g.stepNs;
    assert (a + b) * g.stepNs == End(g);
    ExactCeil(a, g.stepNs);
    ExactCeil(a + b, g.stepNs);
    ThroughputIff(g);
  }

  lemma ExactCeil(k: nat, b: nat)
    requires b > 0
    ensures CeilDiv(k * b, b) == k
  {
    DivUnique(k * b + b - 1, b, k, b - 1);
  }
}
