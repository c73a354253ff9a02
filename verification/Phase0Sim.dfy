/** The simulator's own objects, updated in place, proved to compute what AimdModel and SimModel say. */
module Phase0Sim {
  import A = AimdModel
  import M = SimModel
  import Laws = SimLaws

  class Controller {
    const mtuBytes: int
    var rateBps: int
    const minBps: int
    const maxBps: int
    const queueTargetNs: int
    const feedbackStaleNs: int
    var srttNs: int
    var nextEval: int
    var lossSince: bool
    var highDelayRuns: int
    var lastFeedback: int

    ghost function View(): A.Control
      reads this
    {
      A.Control(mtuBytes, rateBps, minBps, maxBps, queueTargetNs, feedbackStaleNs,
                srttNs, nextEval, lossSince, highDelayRuns, lastFeedback)
    }

    constructor (mtu: int, rate: int, min: int, max: int, queueTarget: int, stale: int)
      ensures View() == A.Control(mtu, rate, min, max, queueTarget, stale, 0, 0, false, 0, 0)
    {
      mtuBytes, rateBps, minBps, maxBps, queueTargetNs, feedbackStaleNs := mtu, rate, min, max, queueTarget, stale;
      srttNs, nextEval, lossSince, highDelayRuns, lastFeedback := 0, 0, false, 0, 0;
    }

    method ObserveLoss()
      modifies this
      ensures View() == A.Apply(old(View()), A.Loss)
    {
      lossSince := true;
    }

    method Feedback(now: int, rttNs: int)
      modifies this
      ensures View() == A.OnFeedback(old(View()), now, rttNs)
    {
      lastFeedback := now;
      if srttNs == 0 {
        srttNs := rttNs;
        return;
      }
      srttNs := A.Quot(7 * srttNs + rttNs, 8);
    }

    method EvalPeriod() returns (ns: int)
      ensures ns == A.EvalPeriod(View())
    {
      ns := if srttNs > 0 then srttNs else feedbackStaleNs;
    }

    method Clamp()
      modifies this
      ensures View() == old(View()).(rate := A.Clamp(old(rateBps), minBps, maxBps))
    {
      if rateBps < minBps { rateBps := minBps; }
      if rateBps > maxBps { rateBps := maxBps; }
    }

    /** The body of an evaluation that is due; the caller then schedules the next one. */
    method Evaluate(now: int, queueDelayNs: int)
      requires A.Evaluates(View(), now)
      modifies this
      ensures var after := A.OnTick(old(View()), now, queueDelayNs);
              View() == after.(nextEval := old(nextEval))
    {
      if now - lastFeedback > feedbackStaleNs {
        rateBps := minBps;
        highDelayRuns := 0;
        lossSince := false;
        return;
      }
      if lossSince {
        rateBps := A.Quot(rateBps, 2);
        highDelayRuns := 0;
      } else if queueDelayNs > queueTargetNs {
        highDelayRuns := highDelayRuns + 1;
        if highDelayRuns >= 2 {
          rateBps := A.Quot(rateBps, 2);
          highDelayRuns := 0;
        }
      } else {
        highDelayRuns := 0;
        if srttNs > 0 {
          var inc := A.Quot(mtuBytes * A.SECOND, srttNs);
          rateBps := rateBps + inc;
        }
      }
      lossSince := false;
      Clamp();
    }

    method Tick(now: int, queueDelayNs: int)
      modifies this
      ensures View() == A.OnTick(old(View()), now, queueDelayNs)
    {
      if now < nextEval { return; }
      Evaluate(now, queueDelayNs);
      var period := EvalPeriod();
      nextEval := now + period;
    }
  }

  class TCPFlow {
    const mss: real
    var rateBps: real
    const minBps: real
    var nextEval: int
    var lostSince: bool

    ghost function View(): M.Tcp
      reads this
    {
      M.Tcp(mss, rateBps, minBps, nextEval, lostSince)
    }

    constructor (mss: real, rate: real, min: real)
      ensures View() == M.Tcp(mss, rate, min, 0, false)
    {
      this.mss, rateBps, minBps, nextEval, lostSince := mss, rate, min, 0, false;
    }

    method ObserveLoss()
      modifies this
      ensures View() == old(View()).(lostSince := true)
    {
      lostSince := true;
    }

    method Tick(now: int, rttNs: int)
      requires rttNs > 0
      modifies this
      ensures View() == M.TcpTick(old(View()), now, rttNs)
    {
      if now < nextEval { return; }
      if lostSince {
        rateBps := rateBps * 0.5;
      } else {
        rateBps := rateBps + mss / M.Seconds(rttNs);
      }
      if rateBps < minBps { rateBps := minBps; }
      lostSince := false;
      nextEval := now + rttNs;
    }
  }

  class Link {
    const capacityBps: real
    const bufferBytes: real
    const baseRttNs: int
    var queue: real
    /** What the link did in all steps so far; kept for the accounting only. */
    ghost var drained: real
    ghost var dropped: real

    constructor (capacity: real, buffer: real, baseRtt: int)
      ensures capacityBps == capacity && bufferBytes == buffer && baseRttNs == baseRtt
      ensures queue == drained == dropped == 0.0
    {
      capacityBps, bufferBytes, baseRttNs := capacity, buffer, baseRtt;
      queue, drained, dropped := 0.0, 0.0, 0.0;
    }

    /** The bytes the link can drain in dt seconds. */
    function Capacity(dt: real): real { capacityBps * dt }

    method Step(offered: real, dt: real) returns (lost: bool, queueDelayNs: int)
      requires capacityBps > 0.0
      modifies this
      ensures var p := M.LinkStep(old(queue), Capacity(dt), bufferBytes, offered);
              && queue == p.queue
              && drained == old(drained) + p.drained
              && dropped == old(dropped) + p.dropped
              && lost == (p.dropped > 0.0)
      ensures queueDelayNs == M.QueueDelay(queue, capacityBps)
    {
      lost := false;
      ghost var arrived := queue + offered;
      queue := queue + offered;
      var drain := capacityBps * dt;
      if queue < drain {
        queue := 0.0;
      } else {
        queue := queue - drain;
      }
      drained := drained + (arrived - queue);
      if queue > bufferBytes {
        dropped := dropped + (queue - bufferBytes);
        queue := bufferBytes;
        lost := true;
      }
      queueDelayNs := (queue / capacityBps * A.SECOND as real).Floor;
    }
  }

  class Simulation {
    var clockNs: int
    const link: Link
    const controller: Controller
    const tcp: TCPFlow
    const stepNs: int
    const warmupNs: int
    const measureNs: int
    const staleFeed: bool
    var ctrlBytes: real
    var tcpBytes: real
    ghost var offered: real

    ghost function Config(): M.Config {
      M.Config(link.capacityBps, link.bufferBytes, link.baseRttNs, stepNs, warmupNs, measureNs, staleFeed)
    }

    ghost function View(): M.Sim
      reads this, link, controller, tcp
    {
      M.Sim(clockNs, link.queue, controller.View(), tcp.View(), ctrlBytes, tcpBytes, offered, link.drained, link.dropped)
    }

    ghost predicate Valid()
      reads this, link, controller, tcp
    {
      M.SimOk(Config(), View())
    }

    constructor (link: Link, controller: Controller, tcp: TCPFlow,
                 stepNs: int, warmupNs: int, measureNs: int, staleFeed: bool)
      ensures this.link == link && this.controller == controller && this.tcp == tcp
      ensures Config() == M.Config(link.capacityBps, link.bufferBytes, link.baseRttNs,
                                   stepNs, warmupNs, measureNs, staleFeed)
      ensures View() == M.Sim(0, link.queue, controller.View(), tcp.View(), 0.0, 0.0, 0.0, link.drained, link.dropped)
    {
      this.link, this.controller, this.tcp := link, controller, tcp;
      this.stepNs, this.warmupNs, this.measureNs, this.staleFeed := stepNs, warmupNs, measureNs, staleFeed;
      clockNs, ctrlBytes, tcpBytes, offered := 0, 0.0, 0.0, 0.0;
    }

    method Prime()
      requires Valid()
      modifies this, link, controller, tcp
      ensures Valid() && View() == M.Primed(Config(), old(View()))
    {
      ghost var before := View();
      M.DelayNonNegative(0.0, link.capacityBps);
      var rtt := link.baseRttNs + (0.0 / link.capacityBps * A.SECOND as real).Floor;
      controller.Feedback(clockNs, rtt);
      tcp.nextEval := clockNs + rtt;
      var period := controller.EvalPeriod();
      controller.nextEval := clockNs + period;
      assert View() == M.Primed(Config(), before);
    }

    /** The first half of a turn: the link, the loss signals and the delivered bytes. */
    method Transfer(dt: real) returns (qDelay: int)
      requires Valid() && dt == M.Seconds(stepNs)
      modifies this, link, controller, tcp
      ensures Valid() && View() == M.Transfer(Config(), old(View()))
      ensures qDelay == M.Delay(Config(), View())
    {
      hide M.LinkStep, M.QueueDelay, M.Transfer, M.Seconds;
      ghost var g, before := Config(), View();
      var cOffer, tOffer := controller.rateBps as real * dt, tcp.rateBps * dt;
      ghost var p := M.LinkStep(link.queue, link.Capacity(dt), link.bufferBytes, cOffer + tOffer);
      var lost;
      lost, qDelay := link.Step(cOffer + tOffer, dt);
      offered := offered + (cOffer + tOffer);
      if lost {
        controller.ObserveLoss();
        tcp.ObserveLoss();
      }
      var served, total := link.Capacity(dt), cOffer + tOffer;
      var frac := 1.0;
      if total > served && total > 0.0 {
        frac := served / total;
      }
      if clockNs >= warmupNs {
        ctrlBytes := ctrlBytes + cOffer * frac;
        tcpBytes := tcpBytes + tOffer * frac;
      }
      assert View() == M.Book(before, M.Measuring(g, before), cOffer, tOffer, frac, p);
      assert frac == M.Fraction(total, served);
      TransferIs(g, before, cOffer, tOffer, served);
    }

    /** The second half: feedback, both evaluations, and the clock. */
    method React(qDelay: int)
      requires Valid() && qDelay == M.Delay(Config(), View())
      modifies this, link, controller, tcp
      ensures Valid() && View() == M.React(Config(), old(View()))
    {
      ghost var g, before := Config(), View();
      ghost var after := M.React(g, before);
      var rtt := link.baseRttNs + qDelay;
      if !(staleFeed && clockNs >= warmupNs) {
        controller.Feedback(clockNs, rtt);
      }
      controller.Tick(clockNs, qDelay);
      tcp.Tick(clockNs, rtt);
      clockNs := clockNs + stepNs;
      assert View() == after;
    }

    method Run() returns (ctrlBps: real, tcpBps: real)
      requires Valid()
      modifies this, link, controller, tcp
      ensures Valid()
      ensures View() == M.Steps(Config(), M.Primed(Config(), old(View())), Laws.LoopCountFrom(Config(), old(clockNs)))
      ensures M.Seconds(measureNs) > 0.0
      ensures ctrlBps == ctrlBytes / M.Seconds(measureNs) && tcpBps == tcpBytes / M.Seconds(measureNs)
    {
      hide M.Steps, M.SimOk, M.Seconds, Laws.LoopCountFrom;
      ghost var g := Config();
      ghost var start := M.Primed(g, View());
      assert M.ConfigOk(g) by { SimHasConfig(g, View()); }
      var dt := M.Seconds(stepNs);
      var end := warmupNs + measureNs;
      Prime();
      ghost var n: nat := 0;
      Laws.NowAfter(g, start, 0);
      NoSteps(g, start);
      while clockNs < end
        invariant Valid() && Config() == g
        invariant View() == M.Steps(g, start, n)
        invariant clockNs == start.now + n * stepNs
        invariant n > 0 ==> start.now + (n - 1) * stepNs < end
        decreases end - clockNs
      {
        OneStep(g, start, n);
        var qDelay := Transfer(dt);
        React(qDelay);
        n := n + 1;
        Laws.NowAfter(g, start, n);
      }
      CountIs(g, start.now, n);
      Laws.WindowPositive(g);
      var win := M.Seconds(measureNs);
      ctrlBps, tcpBps := ctrlBytes / win, tcpBytes / win;
    }
  }

  lemma TransferIs(g: M.Config, s: M.Sim, c: real, t: real, served: real)
    requires M.SimOk(g, s)
    requires c == M.CtrlOffer(g, s) && t == M.TcpOffer(g, s) && served == M.Served(g)
    ensures M.Transfer(g, s)
         == M.Book(s, M.Measuring(g, s), c, t, M.Fraction(c + t, served), M.LinkStep(s.queue, served, g.buffer, c + t))
  {
    hide M.LinkStep, M.Fraction, M.Book, M.CtrlOffer, M.TcpOffer, M.Served;
  }

  lemma SimHasConfig(g: M.Config, s: M.Sim)
    requires M.SimOk(g, s)
    ensures M.ConfigOk(g)
  {}

  lemma NoSteps(g: M.Config, s: M.Sim)
    requires M.SimOk(g, s)
    ensures M.Steps(g, s, 0) == s
  {}

  lemma OneStep(g: M.Config, s: M.Sim, n: nat)
    requires M.SimOk(g, s)
    ensures M.Steps(g, s, n + 1) == M.React(g, M.Transfer(g, M.Steps(g, s, n)))
  {}

  /** The loop stops at the first step that is not before the end. */
  lemma CountIs(g: M.Config, now: int, n: nat)
    requires M.ConfigOk(g) && now + n * g.stepNs >= Laws.End(g)
    requires n > 0 ==> now + (n - 1) * g.stepNs < Laws.End(g)
    ensures n == Laws.LoopCountFrom(g, now)
  {
    if n > 0 {
      Laws.BeforeEnd(g, now, n);
      Laws.CeilDivIff(Laws.End(g) - now, g.stepNs, n);
      Laws.CeilDivIff(Laws.End(g) - now, g.stepNs, n - 1);
    }
  }
}
