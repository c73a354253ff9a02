/** When the controller evaluates, what each evaluation makes of the rate, and which of the events before
  * it decides that. */
module AimdSteps {
  import opened Arith
  import opened AimdModel
  import opened AimdLaws

  // ---------------------------------------------------------------- one event

  function Max(a: int, b: int): int { if a < b then b else a }
  function Min(a: int, b: int): int { if a < b then a else b }

  /** The smoothed round trip takes the first sample as it is and moves an eighth of the way, rounded
    * down, to every later one. */
  lemma FeedbackStep(c: Control, now: int, rtt: int)
    requires c.srtt >= 0 && rtt >= 0
    ensures var r := Apply(c, Feedback(now, rtt));
            && r.lastFeedback == now
            && (c.srtt == 0 ==> r.srtt == rtt)
            && (c.srtt > 0 ==> 8 * r.srtt <= 7 * c.srtt + rtt < 8 * r.srtt + 8)
            && r.(srtt := c.srtt, lastFeedback := c.lastFeedback) == c
  {}

  /** A loss is remembered; nothing else changes. */
  lemma LossStep(c: Control)
    ensures Apply(c, Loss).lossSince && Apply(c, Loss).(lossSince := c.lossSince) == c
  {}

  /** A tick that is not due changes nothing. One that is due forgets the loss and schedules the next; it
    * sets the rate to the minimum when feedback is stale, and else halves it, or keeps it in a first
    * round of high delay, or adds one MTU per round trip, within the bounds. */
  lemma TickStep(c: Control, now: int, queueDelay: int)
    requires c.rate >= 0 && c.mtu >= 0
    ensures var r, e := Apply(c, Tick(now, queueDelay)), Tick(now, queueDelay);
            && (now < c.nextEval ==> r == c)
            && (now >= c.nextEval ==>
                  && !r.lossSince && r.nextEval == now + (if c.srtt > 0 then c.srtt else c.stale)
                  && r.rate == (if now - c.lastFeedback > c.stale then c.min
                                else Min(c.max, Max(c.min, Unclamped(c, e))))
                  && (InRange(c) && IsHalving(c, e) ==> r.rate == if c.rate / 2 < c.min then c.min else c.rate / 2)
                  && r.(rate := c.rate, nextEval := c.nextEval, lossSince := c.lossSince,
                        highDelayRuns := c.highDelayRuns) == c)
  {
    if c.srtt > 0 { DivSign(c.mtu * SECOND, c.srtt); }
  }

  /** Where a fresh evaluation would take the rate if there were no bounds. */
  ghost function Unclamped(c: Control, e: Event): int
    requires e.Tick?
  {
    if IsHalving(c, e) then c.rate / 2
    else if e.queueDelay > c.queueTarget || c.srtt <= 0 then c.rate
    else c.rate + c.mtu * SECOND / c.srtt
  }

  /** Division rounds towards zero. */
  lemma QuotTruncates(a: int, b: int)
    requires b > 0
    ensures var q := Quot(a, b);
            && (a >= 0 ==> b * q <= a < b * q + b)
            && (a <= 0 ==> b * q - b < a <= b * q)
  {
    assert a >= 0 ==> a == b * (a / b) + a % b;
    assert a <= 0 ==> -a == b * (-a / b) + -a % b;
  }

  // ---------------------------------------------------------------- what came before

  lemma {:induction false} ConfigKept(c: Control, es: seq<Event>)
    ensures var d := Run(c, es);
            d.mtu == c.mtu && d.min == c.min && d.max == c.max && d.queueTarget == c.queueTarget && d.stale == c.stale
  {
    if es != [] { ConfigKept(c, es[..|es| - 1]); }
  }

  /** The time of the last feedback event. */
  function FedAt(c: Control, es: seq<Event>): int {
    if es == [] then c.lastFeedback
    else if es[|es| - 1].Feedback? then es[|es| - 1].now
    else FedAt(c, es[..|es| - 1])
  }

  lemma {:induction false} FeedbackIsSeen(c: Control, es: seq<Event>)
    ensures Run(c, es).lastFeedback == FedAt(c, es)
  {
    if es != [] { FeedbackIsSeen(c, es[..|es| - 1]); }
  }

  /** A tick evaluates exactly when a smoothed round trip, or the staleness limit while none is known,
    * has gone by since the tick that evaluated last. */
  lemma {:induction false} EvaluatesIff(c: Control, es: seq<Event>, now: int, queueDelay: int)
    ensures NoEvaluation(c, es) ==> (IsEvaluation(Run(c, es), Tick(now, queueDelay)) <==> now >= c.nextEval)
    ensures forall k: nat | LastEvaluation(c, es, k) ::
              var srtt := Run(c, es[..k]).srtt;
              IsEvaluation(Run(c, es), Tick(now, queueDelay)) <==>
                now >= es[k].now + if srtt > 0 then srtt else c.stale
  {
    if NoEvaluation(c, es) { NextEvalKept(c, es); }
    forall k: nat | LastEvaluation(c, es, k)
      ensures Run(c, es).nextEval == es[k].now + EvalPeriod(Run(c, es[..k])) && Run(c, es[..k]).stale == c.stale
    {
      NextEvalSince(c, es, k);
      ConfigKept(c, es[..k]);
    }
  }

  ghost predicate NoEvaluation(c: Control, es: seq<Event>) {
    forall i | 0 <= i < |es| :: !IsEvaluation(Run(c, es[..i]), es[i])
  }

  lemma {:induction false} NextEvalKept(c: Control, es: seq<Event>)
    requires NoEvaluation(c, es)
    ensures Run(c, es).nextEval == c.nextEval
  {
    hide Apply, IsEvaluation;
    if es != [] {
      var n := |es| - 1;
      var shorter := es[..n];
      forall i | 0 <= i < n ensures !IsEvaluation(Run(c, shorter[..i]), shorter[i]) {
        assert shorter[..i] == es[..i] && shorter[i] == es[i];
      }
      NextEvalKept(c, shorter);
      NextEval(Run(c, shorter), es[n]);
    }
  }

  lemma {:induction false} NextEvalSince(c: Control, es: seq<Event>, k: nat)
    requires LastEvaluation(c, es, k)
    ensures Run(c, es).nextEval == es[k].now + EvalPeriod(Run(c, es[..k]))
  {
    hide IsEvaluation, Apply, EvalPeriod;
    var n := |es| - 1;
    NextEval(Run(c, es[..n]), es[n]);
    if k == n {
      TicksEvaluate(Run(c, es[..n]), es[n]);
    } else {
      LastEvaluationEarlier(c, es, k);
      NextEvalSince(c, es[..n], k);
      assert es[..n][..k] == es[..k];
    }
  }

  lemma TicksEvaluate(c: Control, e: Event)
    ensures IsEvaluation(c, e) ==> e.Tick?
  {}

  lemma LastEvaluationEarlier(c: Control, es: seq<Event>, k: nat)
    requires LastEvaluation(c, es, k) && k < |es| - 1
    ensures LastEvaluation(c, es[..|es| - 1], k) && !IsEvaluation(Run(c, es[..|es| - 1]), es[|es| - 1])
  {
    hide IsEvaluation, Run;
    NoneSinceEarlier(c, es, k);
    assert es[..|es| - 1][..k] == es[..k];
  }

  lemma NoneSinceEarlier(c: Control, es: seq<Event>, k: nat)
    requires NoneSince(c, es, k) && k < |es| - 1
    ensures NoneSince(c, es[..|es| - 1], k) && !IsEvaluation(Run(c, es[..|es| - 1]), es[|es| - 1])
  {
    hide IsEvaluation, Run;
    var n := |es| - 1;
    forall i | k < i < n ensures !IsEvaluation(Run(c, es[..n][..i]), es[..n][i]) {
      assert es[..n][..i] == es[..i];
    }
  }

  /** Feedback is stale exactly when the last one lies further back than the limit. */
  lemma CollapseIff(c: Control, es: seq<Event>, e: Event)
    requires IsEvaluation(Run(c, es), e)
    ensures IsCollapse(Run(c, es), e) <==> e.now - FedAt(c, es) > c.stale
  {
    FeedbackIsSeen(c, es);
    ConfigKept(c, es);
  }

  /** A loss since the last evaluation. */
  ghost predicate LossPending(c: Control, es: seq<Event>) {
    exists i: nat :: i < |es| && es[i].Loss? && NoneSince(c, es, i)
  }

  /** The last evaluation was a first round of high delay. */
  ghost predicate HighPending(c: Control, es: seq<Event>) {
    exists k: nat :: LastEvaluation(c, es, k) && FirstHighRound(Run(c, es[..k]), es[k])
  }

  lemma {:induction false} LossPends(c: Control, es: seq<Event>, i: nat)
    requires i < |es| && es[i].Loss? && NoneSince(c, es, i)
    ensures Run(c, es).lossSince
  {
    var n := |es| - 1;
    if i < n {
      NoneSinceEarlier(c, es, i);
      LossPends(c, es[..n], i);
    }
  }

  lemma {:induction false} HighPends(c: Control, es: seq<Event>, k: nat)
    requires c.highDelayRuns == 0 && LastEvaluation(c, es, k) && FirstHighRound(Run(c, es[..k]), es[k])
    ensures Run(c, es).highDelayRuns == 1
  {
    var n := |es| - 1;
    if k == n {
      PendingHighRound(c, es[..n]);
    } else {
      LastEvaluationEarlier(c, es, k);
      assert es[..n][..k] == es[..k];
      HighPends(c, es[..n], k);
    }
  }

  /** Given fresh feedback, an evaluation halves the rate exactly after a loss since the last evaluation,
    * or in the second of two evaluations in a row above the delay target. */
  lemma HalvingIff(c: Control, es: seq<Event>, e: Event)
    requires c.highDelayRuns == 0 && !c.lossSince
    requires IsEvaluation(Run(c, es), e) && e.now - FedAt(c, es) <= c.stale
    ensures IsHalving(Run(c, es), e) <==> LossPending(c, es) || (e.queueDelay > c.queueTarget && HighPending(c, es))
  {
    hide FirstHighRound;
    CollapseIff(c, es, e);
    ConfigKept(c, es);
    PendingHighRound(c, es);
    if Run(c, es).lossSince { LossIsRecent(c, es); }
    if i: nat :| i < |es| && es[i].Loss? && NoneSince(c, es, i) { LossPends(c, es, i); }
    if k: nat :| k < |es| && LastEvaluation(c, es, k) && FirstHighRound(Run(c, es[..k]), es[k]) { HighPends(c, es, k); }
  }

  // ---------------------------------------------------------------- runs of halvings

  /** After k halvings, and no other evaluation, the rate is the first one divided by 2^k, or the minimum. */
  lemma {:induction false} HalvedRate(c: Control, es: seq<Event>)
    requires InRange(c) && c.mtu >= 0 && Evaluations(c, es) == Halvings(c, es)
    ensures Run(c, es).rate == Max(c.min, c.rate / Pow2(Halvings(c, es)))
  {
    if es != [] {
      var n := |es| - 1;
      var d := Run(c, es[..n]);
      ChangesAreEvaluations(c, es[..n]);
      HalvedRate(c, es[..n]);
      RateStaysInRange(c, es[..n]);
      var k := Halvings(c, es[..n]);
      if IsHalving(d, es[n]) {
        TickStep(d, es[n].now, es[n].queueDelay);
        HalfFloor(c.rate, k);
        HalfOfMax(c.min, c.rate / Pow2(k));
      }
    }
  }

  lemma HalfOfMax(min: int, x: int)
    requires min >= 0
    ensures Max(min, Max(min, x) / 2) == Max(min, x / 2)
  {}

  /** The evaluation after feedback has gone stale ends exactly at the minimum. */
  lemma CollapsedRate(c: Control, es: seq<Event>, e: Event)
    requires InRange(c) && c.mtu >= 0 && IsEvaluation(Run(c, es), e) && e.now - FedAt(c, es) > c.stale
    ensures Apply(Run(c, es), e).rate == c.min
  {
    CollapseIff(c, es, e);
    RateStaysInRange(c, es);
    TickStep(Run(c, es), e.now, e.queueDelay);
  }
}
