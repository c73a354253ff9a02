/** The per-direction AIMD rate controller of internal/congestion/phase0sim/sim.go: exact integer
  * arithmetic on bytes per second and nanoseconds. */
module AimdModel {

  const SECOND := 1_000_000_000

  datatype Control = Control(
    mtu: int, rate: int, min: int, max: int, queueTarget: int, stale: int,
    srtt: int, nextEval: int, lossSince: bool, highDelayRuns: int, lastFeedback: int)

  datatype Event = Feedback(now: int, rtt: int) | Tick(now: int, queueDelay: int) | Loss

  /** Go's division of signed integers, which truncates towards zero. */
  function Quot(a: int, b: int): int
    requires b > 0
  {
    if a >= 0 then a / b else -((-a) / b)
  }

  function OnFeedback(c: Control, now: int, rtt: int): Control {
    var d := c.(lastFeedback := now);
    if c.srtt == 0 then d.(srtt := rtt) else d.(srtt := Quot(7 * c.srtt + rtt, 8))
  }

  function EvalPeriod(c: Control): int { if c.srtt > 0 then c.srtt else c.stale }

  function Clamp(rate: int, min: int, max: int): int {
    var r := if rate < min then min else rate;
    if r > max then max else r
  }

  predicate Evaluates(c: Control, now: int) { now >= c.nextEval }
  predicate Stale(c: Control, now: int) { now - c.lastFeedback > c.stale }

  /** An evaluation halves the rate after a loss or a second round of high delay in a row. */
  predicate CutsRate(c: Control, queueDelay: int) {
    c.lossSince || (queueDelay > c.queueTarget && c.highDelayRuns + 1 >= 2)
  }

  /** How much an evaluation adds to the rate that it does not cut. */
  function Increase(c: Control, queueDelay: int): int {
    if queueDelay > c.queueTarget || c.srtt <= 0 then 0 else Quot(c.mtu * SECOND, c.srtt)
  }

  function OnTick(c: Control, now: int, queueDelay: int): Control {
    if !Evaluates(c, now) then c
    else
      var d := c.(nextEval := now + EvalPeriod(c), lossSince := false);
      if Stale(c, now) then d.(rate := c.min, highDelayRuns := 0)
      else if CutsRate(c, queueDelay) then
        d.(rate := Clamp(Quot(c.rate, 2), c.min, c.max), highDelayRuns := 0)
      else
        d.(rate := Clamp(c.rate + Increase(c, queueDelay), c.min, c.max),
           highDelayRuns := if queueDelay > c.queueTarget then c.highDelayRuns + 1 else 0)
  }

  function Apply(c: Control, e: Event): Control {
    match e
    case Feedback(now, rtt) => OnFeedback(c, now, rtt)
    case Tick(now, queueDelay) => OnTick(c, now, queueDelay)
    case Loss => c.(lossSince := true)
  }

  function Run(c: Control, es: seq<Event>): Control {
    if es == [] then c else Apply(Run(c, es[..|es| - 1]), es[|es| - 1])
  }

  // ---------------------------------------------------------------- counting over a run

  predicate IsEvaluation(c: Control, e: Event) { e.Tick? && Evaluates(c, e.now) }
  predicate IsCollapse(c: Control, e: Event) { IsEvaluation(c, e) && Stale(c, e.now) }
  predicate IsHalving(c: Control, e: Event) {
    IsEvaluation(c, e) && !Stale(c, e.now) && CutsRate(c, e.queueDelay)
  }

  function Evaluations(c: Control, es: seq<Event>): nat {
    if es == [] then 0
    else Evaluations(c, es[..|es| - 1]) + if IsEvaluation(Run(c, es[..|es| - 1]), es[|es| - 1]) then 1 else 0
  }

  function Halvings(c: Control, es: seq<Event>): nat {
    if es == [] then 0
    else Halvings(c, es[..|es| - 1]) + if IsHalving(Run(c, es[..|es| - 1]), es[|es| - 1]) then 1 else 0
  }

  function Collapses(c: Control, es: seq<Event>): nat {
    if es == [] then 0
    else Collapses(c, es[..|es| - 1]) + if IsCollapse(Run(c, es[..|es| - 1]), es[|es| - 1]) then 1 else 0
  }

  /** Halvings that a pending loss brought about. */
  function LossHalvings(c: Control, es: seq<Event>): nat {
    if es == [] then 0
    else
      var d := Run(c, es[..|es| - 1]);
      LossHalvings(c, es[..|es| - 1]) + if IsHalving(d, es[|es| - 1]) && d.lossSince then 1 else 0
  }

  function Losses(es: seq<Event>): nat {
    if es == [] then 0 else Losses(es[..|es| - 1]) + if es[|es| - 1].Loss? then 1 else 0
  }

  /** How often the rate took a new value. */
  function RateChanges(c: Control, es: seq<Event>): nat {
    if es == [] then 0
    else RateChanges(c, es[..|es| - 1]) + if Run(c, es).rate != Run(c, es[..|es| - 1]).rate then 1 else 0
  }

  function Feedbacks(es: seq<Event>): nat {
    if es == [] then 0 else Feedbacks(es[..|es| - 1]) + if es[|es| - 1].Feedback? then 1 else 0
  }

  function Pow2(k: nat): (p: nat)
    ensures p >= 1
  {
    if k == 0 then 1 else 2 * Pow2(k - 1)
  }

  function CeilDiv(a: nat, b: nat): nat
    requires b > 0
  {
    (a + b - 1) / b
  }
}
