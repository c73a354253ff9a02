/** What one turn of the simulator means for each of the two flows, and that the controller in it lives
  * through a run of its own events, so that all its laws apply. */
module SimSteps {
  import opened AimdModel
  import AimdLaws
  import AimdSteps
  import opened SimModel
  import opened SimLaws

  // ---------------------------------------------------------------- the link

  function MaxReal(a: real, b: real): real { if a < b then b else a }

  /** The delay, in whole nanoseconds, is the time the link takes for what is queued. */
  lemma DelayDrainsQueue(queue: real, capacity: real)
    requires queue >= 0.0 && capacity > 0.0
    ensures var d := QueueDelay(queue, capacity);
            d >= 0 && capacity * Seconds(d) <= queue < capacity * Seconds(d + 1)
  {
    var b := SECOND as real;
    var x := queue / capacity * b;
    var d := QueueDelay(queue, capacity);
    assert d as real <= x < (d + 1) as real;
    DelayNonNegative(queue, capacity);
    ScaleTime(queue, capacity, x, d as real);
    ScaleTime(queue, capacity, x, (d + 1) as real);
  }

  lemma ScaleTime(queue: real, capacity: real, x: real, d: real)
    requires capacity > 0.0 && x == queue / capacity * SECOND as real
    ensures d <= x <==> capacity * (d / SECOND as real) <= queue
  {
    var b := SECOND as real;
    assert x / b == queue / capacity;
    assert capacity * (x / b) == queue;
    var e := x / b - d / b;
    assert capacity * (x / b) - capacity * (d / b) == capacity * e;
    assert e >= 0.0 <==> d <= x;
    if e >= 0.0 { assert capacity * e >= 0.0; } else { Negative(capacity, e); }
  }

  lemma Negative(a: real, e: real)
    requires a > 0.0 && e < 0.0
    ensures a * e < 0.0
  {}

  // ---------------------------------------------------------------- delivered bytes

  /** What a flow offers is its own rate times the length of the step, and so for what can be served. */
  lemma OffersAre(g: Config, s: Sim)
    ensures CtrlOffer(g, s) == s.ctl.rate as real * (g.stepNs as real / SECOND as real)
    ensures TcpOffer(g, s) == s.tcp.rate * (g.stepNs as real / SECOND as real)
    ensures Served(g) == g.capacity * (g.stepNs as real / SECOND as real)
  {}

  /** A measured step credits each flow with its share, in proportion to its offer, of what could be
    * served. */
  lemma FlowsShare(g: Config, s: Sim)
    requires SimOk(g, s)
    ensures var r, c, t := Transfer(g, s), CtrlOffer(g, s), TcpOffer(g, s);
            var toCtrl, toTcp := r.ctrlBytes - s.ctrlBytes, r.tcpBytes - s.tcpBytes;
            && r.offered - s.offered == c + t
            && (s.now < g.warmupNs ==> toCtrl == toTcp == 0.0)
            && (s.now >= g.warmupNs ==>
                  InProportion(toCtrl, c, c + t, Served(g)) && InProportion(toTcp, t, c + t, Served(g)))
  {
    hide LinkStep, Fraction, InProportion, CtrlOffer, TcpOffer, Served, Part;
    OfferSigns(g, s);
    var c, t := CtrlOffer(g, s), TcpOffer(g, s);
    Share(c, c + t, Served(g));
    Share(t, c + t, Served(g));
  }

  /** `credit` is to what could be served of `total` as `offer` is to `total`. */
  predicate InProportion(credit: real, offer: real, total: real, served: real) {
    0.0 <= credit <= offer && credit * total == offer * MinReal(total, served)
  }

  lemma Share(c: real, total: real, served: real)
    requires 0.0 <= c <= total && served > 0.0
    ensures InProportion(Part(c, Fraction(total, served)), c, total, served)
  {
    if total > served {
      var f := served / total;
      assert f * total == served;
      DivLe(served, total, 1.0);
      assert f > 0.0;
      MulRealMono(0.0, f, c);
      MulRealMono(f, 1.0, c);
      assert c * f * total == c * (f * total);
    }
  }

  /** Both flows are told of a loss when the link dropped something, and of nothing else. */
  lemma LossIsShared(g: Config, s: Sim)
    requires SimOk(g, s)
    ensures var r := Transfer(g, s);
            var lost := r.dropped > s.dropped;
            && r.ctl == s.ctl.(lossSince := s.ctl.lossSince || lost)
            && r.tcp == s.tcp.(lostSince := s.tcp.lostSince || lost)
            && r.now == s.now
  {
    hide LinkStep, Fraction, CtrlOffer, TcpOffer, Served;
    OfferSigns(g, s);
    LinkAccounts(s.queue, Served(g), g.buffer, CtrlOffer(g, s) + TcpOffer(g, s));
  }

  // ---------------------------------------------------------------- the reference flow

  /** In every turn the reference flow, when it is due, halves its rate after a loss, else adds one
    * segment per round trip, never falls below its minimum, and is due again one round trip later. */
  lemma TcpTurn(g: Config, s: Sim)
    requires SimOk(g, s)
    ensures var m := Transfer(g, s);
            var f, r, rtt := s.tcp, Step(g, s).tcp, g.baseRtt + Delay(g, m);
            var lost := f.lostSince || m.dropped > s.dropped;
            && rtt > 0 && r.mss == f.mss && r.min == f.min
            && (s.now < f.nextEval ==> r == f.(lostSince := lost))
            && (s.now >= f.nextEval ==>
                  && r.rate == MaxReal(f.min, if lost then f.rate / 2.0
                                              else f.rate + f.mss * SECOND as real / rtt as real)
                  && !r.lostSince && r.nextEval == s.now + rtt)
  {
    hide Transfer;
    LossIsShared(g, s);
    var rtt := g.baseRtt + Delay(g, Transfer(g, s));
    PerRoundTrip(s.tcp.mss, rtt);
  }

  lemma PerRoundTrip(mss: real, rtt: int)
    requires rtt > 0
    ensures mss / Seconds(rtt) == mss * SECOND as real / rtt as real
  {
    var x, b, r := mss / Seconds(rtt), SECOND as real, rtt as real;
    assert x * (r / b) == mss;
    assert x * r == mss * b;
  }

  // ---------------------------------------------------------------- the controller

  /** What happens to the controller in one turn: a loss, if the link dropped something; a sample of the
    * round trip, unless the experiment has cut feedback off; and a tick. */
  function TurnEvents(g: Config, s: Sim): seq<Event>
    requires SimOk(g, s)
  {
    var m := Transfer(g, s);
    (if m.dropped > s.dropped then [Loss] else [])
    + (if g.staleFeed && s.now >= g.warmupNs then [] else [Feedback(s.now, g.baseRtt + Delay(g, m))])
    + [Tick(s.now, Delay(g, m))]
  }

  function EventsOf(g: Config, s: Sim, n: nat): seq<Event>
    requires SimOk(g, s)
  {
    if n == 0 then [] else EventsOf(g, s, n - 1) + TurnEvents(g, Steps(g, s, n - 1))
  }

  lemma {:induction false} RunConcat(c: Control, a: seq<Event>, b: seq<Event>)
    ensures Run(c, a + b) == Run(Run(c, a), b)
  {
    if b == [] {
      assert a + b == a;
    } else {
      assert (a + b)[..|a + b| - 1] == a + b[..|b| - 1];
      RunConcat(c, a, b[..|b| - 1]);
    }
  }

  lemma RunOne(c: Control, e: Event)
    ensures Run(c, [e]) == Apply(c, e)
  {
    assert [e][..0] == [] && Run(c, [e][..0]) == c;
  }

  lemma TurnIsRun(g: Config, s: Sim)
    requires SimOk(g, s)
    ensures Step(g, s).ctl == Run(s.ctl, TurnEvents(g, s))
    ensures Step(g, s).now == s.now + g.stepNs
  {
    hide Transfer, OnTick, OnFeedback, Run;
    LossIsShared(g, s);
    var m := Transfer(g, s);
    var d := Delay(g, m);
    var lost := if m.dropped > s.dropped then [Loss] else [];
    var fed := if g.staleFeed && s.now >= g.warmupNs then [] else [Feedback(s.now, g.baseRtt + d)];
    RunConcat(s.ctl, lost + fed, [Tick(s.now, d)]);
    RunConcat(s.ctl, lost, fed);
    RunOne(s.ctl, Loss);
    RunOne(m.ctl, Feedback(s.now, g.baseRtt + d));
    RunOne(Run(s.ctl, lost + fed), Tick(s.now, d));
    RunNone(s.ctl);
    RunNone(m.ctl);
  }

  lemma RunNone(c: Control)
    ensures Run(c, []) == c
  {}

  /** Over any number of turns the controller goes through exactly these events, in this order. */
  lemma {:induction false} ControllerLivesThrough(g: Config, s: Sim, n: nat)
    requires SimOk(g, s)
    ensures Steps(g, s, n).ctl == Run(s.ctl, EventsOf(g, s, n))
  {
    hide Step, TurnEvents;
    if n > 0 {
      ControllerLivesThrough(g, s, n - 1);
      TurnIsRun(g, Steps(g, s, n - 1));
      RunConcat(s.ctl, EventsOf(g, s, n - 1), TurnEvents(g, Steps(g, s, n - 1)));
    }
  }

  /** A controller that is fed in every turn never finds its feedback stale: the sample of a turn comes
    * before its tick. */
  lemma {:induction false} FedNeverCollapses(g: Config, s: Sim, n: nat)
    requires SimOk(g, s) && s.ctl.stale >= 0 && !g.staleFeed
    ensures Collapses(s.ctl, EventsOf(g, s, n)) == 0
  {
    hide Step, TurnEvents;
    if n > 0 {
      FedNeverCollapses(g, s, n - 1);
      var es, turn := EventsOf(g, s, n - 1), TurnEvents(g, Steps(g, s, n - 1));
      CollapsesConcat(s.ctl, es, turn);
      AimdSteps.ConfigKept(s.ctl, es);
      TurnNeverCollapses(g, Steps(g, s, n - 1), Run(s.ctl, es));
    }
  }

  lemma {:induction false} CollapsesConcat(c: Control, a: seq<Event>, b: seq<Event>)
    ensures Collapses(c, a + b) == Collapses(c, a) + Collapses(Run(c, a), b)
  {
    hide Run;
    if b == [] {
      assert a + b == a;
    } else {
      var n := |b| - 1;
      assert (a + b)[..|a + b| - 1] == a + b[..n];
      CollapsesConcat(c, a, b[..n]);
      RunConcat(c, a, b[..n]);
    }
  }

  lemma TurnNeverCollapses(g: Config, s: Sim, c: Control)
    requires SimOk(g, s) && c.stale >= 0 && !g.staleFeed
    ensures Collapses(c, TurnEvents(g, s)) == 0
  {
    hide Transfer, Delay;
    var es := TurnEvents(g, s);
    var n := |es| - 1;
    assert es[n - 1].Feedback? && es[n].Tick? && es[n].now == es[n - 1].now == s.now;
    assert es[..n][n - 1] == es[n - 1];
    assert AimdSteps.FedAt(c, es[..n]) == s.now;
    if IsEvaluation(Run(c, es[..n]), es[n]) { AimdSteps.CollapseIff(c, es[..n], es[n]); }
    NoTicksNoCollapses(c, es[..n]);
  }

  lemma {:induction false} NoTicksNoCollapses(c: Control, es: seq<Event>)
    requires forall e <- es :: !e.Tick?
    ensures Collapses(c, es) == 0
  {
    if es != [] {
      assert es[|es| - 1] in es;
      NoTicksNoCollapses(c, es[..|es| - 1]);
    }
  }

  // ---------------------------------------------------------------- the start

  /** Before the first turn the controller has had one sample, of an empty queue, and both flows are due
    * one round trip later. */
  lemma PrimedStart(g: Config, s: Sim)
    requires SimOk(g, s)
    ensures var r, fed := Primed(g, s), Run(s.ctl, [Feedback(s.now, g.baseRtt)]);
            && r.ctl == fed.(nextEval := s.now + if fed.srtt > 0 then fed.srtt else fed.stale)
            && r.tcp == s.tcp.(nextEval := s.now + g.baseRtt)
            && r == s.(ctl := r.ctl, tcp := r.tcp)
            && (s.ctl.srtt == 0 ==> r.ctl.srtt == g.baseRtt && r.ctl.nextEval == s.now + g.baseRtt)
  {
    RunOne(s.ctl, Feedback(s.now, g.baseRtt));
    assert 0.0 / g.capacity * SECOND as real == 0.0;
  }
}
