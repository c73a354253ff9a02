/** The shared-bottleneck experiment of internal/congestion/phase0sim/sim.go over exact reals. */
module SimModel {
  import opened AimdModel

  /** A standard flow: one segment per round trip up, halved on loss. */
  datatype Tcp = Tcp(mss: real, rate: real, min: real, nextEval: int, lostSince: bool)

  datatype Config = Config(
    capacity: real, buffer: real, baseRtt: int,
    stepNs: int, warmupNs: int, measureNs: int, staleFeed: bool)

  /** `offered`, `drained` and `dropped` add up what passed the link; the program keeps no such sums. */
  datatype Sim = Sim(
    now: int, queue: real, ctl: Control, tcp: Tcp, ctrlBytes: real, tcpBytes: real,
    offered: real, drained: real, dropped: real)

  predicate ConfigOk(g: Config) {
    g.capacity > 0.0 && g.buffer >= 0.0 && g.baseRtt >= 1 && g.stepNs >= 1 && g.warmupNs >= 0 && g.measureNs >= 1
  }

  function Seconds(ns: int): real { ns as real / SECOND as real }

  // ---------------------------------------------------------------- the link

  datatype Passed = Passed(queue: real, drained: real, dropped: real)

  /** `drain` is the capacity times the length of the step. */
  function LinkStep(queue: real, drain: real, buffer: real, offered: real): Passed {
    var q := queue + offered;
    var left := if q < drain then 0.0 else q - drain;
    var kept := if left > buffer then buffer else left;
    Passed(kept, q - left, left - kept)
  }

  /** Truncated, as a conversion to an integer does. */
  function QueueDelay(queue: real, capacity: real): int
    requires capacity > 0.0
  {
    (queue / capacity * SECOND as real).Floor
  }

  // ---------------------------------------------------------------- the TCP flow

  function TcpTick(f: Tcp, now: int, rtt: int): Tcp
    requires rtt > 0
  {
    if now < f.nextEval then f
    else
      var r := if f.lostSince then f.rate * 0.5 else f.rate + f.mss / Seconds(rtt);
      f.(rate := if r < f.min then f.min else r, lostSince := false, nextEval := now + rtt)
  }

  // ---------------------------------------------------------------- one step of the loop

  /** The share of the offered bytes that counts as delivered. */
  function Fraction(total: real, served: real): real {
    if total > served && total > 0.0 then served / total else 1.0
  }

  ghost predicate SimOk(g: Config, s: Sim) {
    && ConfigOk(g)
    && 0.0 <= s.queue <= g.buffer
    && 0 <= s.ctl.min <= s.ctl.rate <= s.ctl.max
    && s.tcp.mss >= 0.0 && 0.0 <= s.tcp.min && 0.0 <= s.tcp.rate
  }

  function Delay(g: Config, s: Sim): (d: int)
    requires SimOk(g, s)
    ensures d >= 0
  {
    DelayNonNegative(s.queue, g.capacity);
    QueueDelay(s.queue, g.capacity)
  }

  lemma DelayNonNegative(queue: real, capacity: real)
    requires queue >= 0.0 && capacity > 0.0
    ensures QueueDelay(queue, capacity) >= 0
  {
    assert queue / capacity >= 0.0;
  }

  function Measuring(g: Config, s: Sim): bool { s.now >= g.warmupNs }

  /** What the two flows offer in one step, and what the link can serve. */
  function CtrlOffer(g: Config, s: Sim): real { s.ctl.rate as real * Seconds(g.stepNs) }
  function TcpOffer(g: Config, s: Sim): real { s.tcp.rate * Seconds(g.stepNs) }
  function Served(g: Config): real { g.capacity * Seconds(g.stepNs) }

  lemma OfferSigns(g: Config, s: Sim)
    requires SimOk(g, s)
    ensures CtrlOffer(g, s) >= 0.0 && TcpOffer(g, s) >= 0.0 && Served(g) > 0.0
  {
    assert Seconds(g.stepNs) > 0.0;
  }

  /** Link, loss signals and byte counts of one step. */
  function Transfer(g: Config, s: Sim): (r: Sim)
    requires SimOk(g, s)
    ensures SimOk(g, r)
  {
    OfferSigns(g, s);
    var c, t := CtrlOffer(g, s), TcpOffer(g, s);
    Book(s, Measuring(g, s), c, t, Fraction(c + t, Served(g)), LinkStep(s.queue, Served(g), g.buffer, c + t))
  }

  function Part(x: real, frac: real): real { x * frac }

  function Book(s: Sim, measuring: bool, c: real, t: real, frac: real, p: Passed): Sim {
    s.(queue := p.queue,
       ctl := if p.dropped > 0.0 then s.ctl.(lossSince := true) else s.ctl,
       tcp := if p.dropped > 0.0 then s.tcp.(lostSince := true) else s.tcp,
       ctrlBytes := s.ctrlBytes + if measuring then Part(c, frac) else 0.0,
       tcpBytes := s.tcpBytes + if measuring then Part(t, frac) else 0.0,
       offered := s.offered + (c + t), drained := s.drained + p.drained, dropped := s.dropped + p.dropped)
  }

  /** Feedback, the two evaluations and the clock. */
  function React(g: Config, s: Sim): (r: Sim)
    requires SimOk(g, s)
    ensures SimOk(g, r)
  {
    var rtt := g.baseRtt + Delay(g, s);
    var fed := if g.staleFeed && Measuring(g, s) then s.ctl else OnFeedback(s.ctl, s.now, rtt);
    TcpStaysOk(s.tcp, s.now, rtt);
    s.(ctl := OnTick(fed, s.now, Delay(g, s)), tcp := TcpTick(s.tcp, s.now, rtt), now := s.now + g.stepNs)
  }

  lemma TcpStaysOk(f: Tcp, now: int, rtt: int)
    requires rtt > 0 && f.mss >= 0.0 && 0.0 <= f.min && 0.0 <= f.rate
    ensures var r := TcpTick(f, now, rtt); r.rate >= 0.0 && r.min == f.min && r.mss == f.mss
  {
    assert Seconds(rtt) > 0.0;
    assert f.mss / Seconds(rtt) >= 0.0;
  }

  function Step(g: Config, s: Sim): (r: Sim)
    requires SimOk(g, s)
    ensures SimOk(g, r)
  {
    React(g, Transfer(g, s))
  }

  function Steps(g: Config, s: Sim, n: nat): (r: Sim)
    requires SimOk(g, s)
    ensures SimOk(g, r)
  {
    if n == 0 then s else Step(g, Steps(g, s, n - 1))
  }

  /** The state in which the loop starts: a first sample, and both flows due one round trip later. */
  function Primed(g: Config, s: Sim): (r: Sim)
    requires SimOk(g, s)
    ensures SimOk(g, r)
  {
    var rtt := g.baseRtt + QueueDelay(0.0, g.capacity);
    var c := OnFeedback(s.ctl, s.now, rtt);
    s.(ctl := c.(nextEval := s.now + EvalPeriod(c)), tcp := s.tcp.(nextEval := s.now + rtt))
  }
}
