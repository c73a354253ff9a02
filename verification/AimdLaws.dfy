/** What the controller promises over every run of feedback, loss and clock ticks. */
module AimdLaws {
  import opened Arith
  import opened Basics
  import opened AimdModel

  // ---------------------------------------------------------------- two controllers

  /** Equal in everything but the rate. */
  ghost predicate SameMode(a: Control, b: Control) { a.(rate := 0) == b.(rate := 0) }

  function Gap(a: Control, b: Control): int { b.rate - a.rate }

  lemma ClampContracts(x: int, y: int, min: int, max: int)
    requires x <= y
    ensures 0 <= Clamp(y, min, max) - Clamp(x, min, max) <= y - x
  {}

  lemma HalvingContracts(x: int, y: int)
    requires x <= y
    ensures 0 <= Quot(y, 2) - Quot(x, 2) <= (y - x + 1) / 2 <= y - x
  {}

  lemma StepContracts(a: Control, b: Control, e: Event)
    requires SameMode(a, b) && a.rate <= b.rate
    ensures var a', b' := Apply(a, e), Apply(b, e);
            && SameMode(a', b')
            && 0 <= Gap(a', b') <= Gap(a, b)
            && (IsHalving(a, e) ==> Gap(a', b') <= (Gap(a, b) + 1) / 2)
            && (IsCollapse(a, e) ==> Gap(a', b') == 0)
            && (IsHalving(a, e) <==> IsHalving(b, e)) && (IsCollapse(a, e) <==> IsCollapse(b, e))
  {
    hide Quot, Clamp;
    if IsHalving(a, e) {
      HalvingContracts(a.rate, b.rate);
      ClampContracts(Quot(a.rate, 2), Quot(b.rate, 2), a.min, a.max);
    } else if IsEvaluation(a, e) {
      var inc := Increase(a, e.queueDelay);
      assert Increase(b, e.queueDelay) == inc;
      ClampContracts(a.rate + inc, b.rate + inc, a.min, a.max);
    }
  }

  lemma CeilHalf(d: nat, k: nat)
    ensures (CeilDiv(d, Pow2(k)) + 1) / 2 == CeilDiv(d, Pow2(k + 1))
  {
    var p := Pow2(k);
    var x := d + p - 1;
    var q, m := x / p, x % p;
    assert x == p * q + m;
    // d + 2p - 1 == x + p == p (q + 1) + m
    var q2, m2 := (q + 1) / 2, (q + 1) % 2;
    assert q + 1 == 2 * q2 + m2;
    assert x + p == (2 * p) * q2 + (p * m2 + m) by {
      assert p * (q + 1) == p * q + p;
      assert p * (2 * q2 + m2) == (2 * p) * q2 + p * m2;
    }
    DivUnique(x + p, 2 * p, q2, p * m2 + m);
  }

  /** Fed the same events, two controllers keep their order and never drift apart; their distance
    * is at most ceil(D / 2^k) after k halvings, and zero once feedback has gone stale. */
  lemma {:induction false} Contraction(a: Control, b: Control, es: seq<Event>)
    requires SameMode(a, b) && a.rate <= b.rate
    ensures var a', b' := Run(a, es), Run(b, es);
            && SameMode(a', b')
            && 0 <= Gap(a', b') <= Gap(a, b)
            && Halvings(a, es) == Halvings(b, es)
            && Gap(a', b') <= CeilDiv(Gap(a, b), Pow2(Halvings(a, es)))
            && (Collapses(a, es) > 0 ==> a' == b')
  {
    if es != [] {
      var n := |es| - 1;
      var a1, b1 := Run(a, es[..n]), Run(b, es[..n]);
      Contraction(a, b, es[..n]);
      StepContracts(a1, b1, es[n]);
      if IsHalving(a1, es[n]) { CeilHalf(Gap(a, b), Halvings(a, es[..n])); }
    }
  }

  // ---------------------------------------------------------------- rate bounds

  ghost predicate InRange(c: Control) { 0 <= c.min <= c.rate <= c.max }

  lemma {:induction false} RateStaysInRange(c: Control, es: seq<Event>)
    requires InRange(c)
    ensures InRange(Run(c, es)) && Run(c, es).min == c.min && Run(c, es).max == c.max
    ensures Run(c, es).mtu == c.mtu && Run(c, es).stale == c.stale
  {
    if es != [] { RateStaysInRange(c, es[..|es| - 1]); }
  }

  /** All round trips, measured or assumed, take at least m. */
  ghost predicate SlowerThan(c: Control, m: int) { m >= 1 && (c.srtt == 0 || c.srtt >= m) && c.stale >= m }

  ghost predicate SamplesIn(es: seq<Event>, lo: int, hi: int) {
    forall i | 0 <= i < |es| && es[i].Feedback? :: lo <= es[i].rtt <= hi
  }

  ghost predicate SamplesAtLeast(es: seq<Event>, m: int) {
    forall i | 0 <= i < |es| && es[i].Feedback? :: es[i].rtt >= m
  }

  /** All ticks of the run fall into the window of length `length` that starts at `from`. */
  ghost predicate TicksIn(es: seq<Event>, from: int, length: int) {
    forall i | 0 <= i < |es| && es[i].Tick? :: from <= es[i].now <= from + length
  }

  lemma {:induction false} StaysSlow(c: Control, es: seq<Event>, m: int)
    requires SlowerThan(c, m) && SamplesAtLeast(es, m)
    ensures SlowerThan(Run(c, es), m)
  {
    if es != [] { StaysSlow(c, es[..|es| - 1], m); }
  }

  /** Evaluations are at least m apart, so that a window holds few of them. */
  lemma {:induction false} EvaluationSpacing(c: Control, es: seq<Event>, m: int, from: int, length: nat)
    requires SlowerThan(c, m) && SamplesAtLeast(es, m) && TicksIn(es, from, length)
    ensures var n := Evaluations(c, es);
            n > 0 ==> (n - 1) * m <= length && Run(c, es).nextEval >= from + n * m
  {
    hide OnFeedback;
    if es != [] {
      var k := |es| - 1;
      EvaluationSpacing(c, es[..k], m, from, length);
      StaysSlow(c, es[..k], m);
      var n: int := Evaluations(c, es[..k]);
      SuccTimes(n, m);
      SuccTimes(n - 1, m);
      NextEval(Run(c, es[..k]), es[k]);
    }
  }

  lemma SuccTimes(n: int, m: int)
    ensures (n + 1) * m == n * m + m
  {}

  lemma NextEval(c: Control, e: Event)
    ensures Apply(c, e).nextEval == if IsEvaluation(c, e) then e.now + EvalPeriod(c) else c.nextEval
  {}

  lemma {:induction false} ChangesAreEvaluations(c: Control, es: seq<Event>)
    ensures Halvings(c, es) <= Evaluations(c, es) && RateChanges(c, es) <= Evaluations(c, es)
  {
    if es != [] { ChangesAreEvaluations(c, es[..|es| - 1]); }
  }

  lemma EvaluationGrowth(c: Control, e: Event, m: int)
    requires InRange(c) && c.mtu >= 0 && SlowerThan(c, m)
    ensures Apply(c, e).rate <= c.rate + if IsEvaluation(c, e) then c.mtu * SECOND / m else 0
  {
    DivSign(c.mtu * SECOND, m);
    if c.srtt > 0 {
      DivAntitone(c.mtu * SECOND, c.srtt, m);
      DivSign(c.mtu * SECOND, c.srtt);
    }
  }

  lemma {:induction false} GrowthPerEvaluation(c: Control, es: seq<Event>, m: int)
    requires InRange(c) && c.mtu >= 0 && SlowerThan(c, m) && SamplesAtLeast(es, m)
    ensures Run(c, es).rate <= c.rate + Evaluations(c, es) * (c.mtu * SECOND / m)
  {
    hide Apply, IsEvaluation;
    if es != [] {
      var k := |es| - 1;
      GrowthPerEvaluation(c, es[..k], m);
      StaysSlow(c, es[..k], m);
      RateStaysInRange(c, es[..k]);
      EvaluationGrowth(Run(c, es[..k]), es[k], m);
      var n, g := Evaluations(c, es[..k]), c.mtu * SECOND / m;
      assert (n + 1) * g == n * g + g;
    }
  }

  lemma HalfFloor(r: nat, k: nat)
    ensures r / Pow2(k) / 2 == r / Pow2(k + 1)
  {
    var p := Pow2(k);
    var q, m := r / p, r % p;
    assert r == p * q + m;
    var q2, m2 := q / 2, q % 2;
    assert p * (2 * q2 + m2) == (2 * p) * q2 + p * m2;
    DivUnique(r, 2 * p, q2, p * m2 + m);
  }

  lemma PowMonotone(r: nat, j: nat, k: nat)
    requires j <= k
    ensures r / Pow2(k) <= r / Pow2(j)
    decreases k
  {
    if j < k { HalfFloor(r, k - 1); DivSign(r, Pow2(k - 1)); PowMonotone(r, j, k - 1); }
  }

  lemma {:induction false} DecayPerHalving(c: Control, es: seq<Event>)
    requires InRange(c) && c.mtu >= 0 && Collapses(c, es) == 0
    ensures Run(c, es).rate >= c.rate / Pow2(Halvings(c, es))
  {
    if es != [] {
      var k := |es| - 1;
      var d := Run(c, es[..k]);
      DecayPerHalving(c, es[..k]);
      RateStaysInRange(c, es[..k]);
      if IsHalving(d, es[k]) { HalfFloor(c.rate, Halvings(c, es[..k])); }
      else if es[k].Tick? && d.srtt > 0 { DivSign(d.mtu * SECOND, d.srtt); }
      RateBelowMax(c, Halvings(c, es));
    }
  }

  lemma RateBelowMax(c: Control, k: nat)
    requires InRange(c)
    ensures c.rate / Pow2(k) <= c.max
  {
    PowMonotone(c.rate, 0, k);
  }

  /** In any window the rate changes at most length/m + 1 times; it gains at most one MTU per round
    * trip of length m for each, and, while feedback stays fresh, loses at most a factor of two for
    * each, never falling below the minimum. */
  lemma RateOfChange(c: Control, es: seq<Event>, m: int, from: int, length: nat)
    requires InRange(c) && c.mtu >= 0
    requires SlowerThan(c, m) && SamplesAtLeast(es, m) && TicksIn(es, from, length)
    ensures var k := length / m + 1;
            && k >= 1
            && RateChanges(c, es) <= k
            && c.min <= Run(c, es).rate <= c.max
            && Run(c, es).rate <= c.rate + k * (c.mtu * SECOND / m)
            && (Collapses(c, es) == 0 ==> Run(c, es).rate >= c.rate / Pow2(k))
  {
    hide Run, Evaluations, Halvings, Collapses, RateChanges;
    var k, n, g := length / m + 1, Evaluations(c, es), c.mtu * SECOND / m;
    DivSign(length, m);
    DivSign(c.mtu * SECOND, m);
    ChangesAreEvaluations(c, es);
    EvaluationSpacing(c, es, m, from, length);
    if n > 0 { DivLower(n - 1, m, length); }
    RateStaysInRange(c, es);
    GrowthPerEvaluation(c, es, m);
    MulMono(n, k, g);
    if Collapses(c, es) == 0 {
      DecayPerHalving(c, es);
      PowMonotone(c.rate, Halvings(c, es), k);
    }
  }

  // ---------------------------------------------------------------- smoothing

  /** The smoothed round trip stays between the least and the greatest sample seen. */
  lemma {:induction false} SrttBetweenSamples(c: Control, es: seq<Event>, lo: int, hi: int)
    requires 1 <= lo && SamplesIn(es, lo, hi)
    requires c.srtt == 0 || lo <= c.srtt <= hi
    ensures var s := Run(c, es).srtt; s == 0 || lo <= s <= hi
    ensures Feedbacks(es) > 0 ==> Run(c, es).srtt != 0
  {
    if es != [] { SrttBetweenSamples(c, es[..|es| - 1], lo, hi); }
  }

  /** One sample equal to r: no overshoot from either side, and no movement at all exactly when
    * the estimate already lies within r-7..r. */
  lemma ConstantSampleStep(c: Control, now: int, r: int)
    requires c.srtt >= 1 && r >= 1
    ensures var s := OnFeedback(c, now, r).srtt;
            && (c.srtt > r ==> r <= s < c.srtt)
            && (c.srtt <= r ==> c.srtt <= s <= r)
            && (s == c.srtt <==> r - 7 <= c.srtt <= r)
  {}

  /** Under a constant sample the estimate comes down to exactly r from above; from below it climbs
    * until it stalls within seven of r. */
  lemma {:induction false} ConstantSample(c: Control, es: seq<Event>, r: int)
    requires c.srtt >= 1 && r >= 1 && SamplesIn(es, r, r)
    ensures var s, n := Run(c, es).srtt, Feedbacks(es);
            && s >= 1
            && (c.srtt >= r ==> r <= s <= c.srtt && (s <= c.srtt - n || s == r))
            && (c.srtt <= r ==> c.srtt <= s <= r && (s >= c.srtt + n || s >= r - 7))
  {
    if es != [] {
      var k := |es| - 1;
      ConstantSample(c, es[..k], r);
      if es[k].Feedback? { ConstantSampleStep(Run(c, es[..k]), es[k].now, r); }
    }
  }

  lemma ConstantSampleLimit(c: Control, es: seq<Event>, r: int)
    requires c.srtt >= 1 && r >= 1 && SamplesIn(es, r, r)
    ensures c.srtt >= r && Feedbacks(es) >= c.srtt - r ==> Run(c, es).srtt == r
    ensures c.srtt <= r && Feedbacks(es) >= r - c.srtt ==> r - 7 <= Run(c, es).srtt <= r
  {
    ConstantSample(c, es, r);
  }

  // ---------------------------------------------------------------- why the rate moves

  /** No event of the run after the k-th is an evaluation. */
  ghost predicate NoneSince(c: Control, es: seq<Event>, k: nat) {
    k < |es| && forall i | k < i < |es| :: !IsEvaluation(Run(c, es[..i]), es[i])
  }

  /** The last evaluation of the run happened at its k-th event. */
  ghost predicate LastEvaluation(c: Control, es: seq<Event>, k: nat) {
    NoneSince(c, es, k) && IsEvaluation(Run(c, es[..k]), es[k])
  }

  /** A fresh, lossless evaluation above the delay target that did not halve the rate. */
  ghost predicate FirstHighRound(c: Control, e: Event) {
    IsEvaluation(c, e) && !Stale(c, e.now) && !c.lossSince && e.queueDelay > c.queueTarget && !CutsRate(c, e.queueDelay)
  }

  lemma NoneSinceKept(c: Control, es: seq<Event>, k: nat)
    requires es != [] && NoneSince(c, es[..|es| - 1], k) && !IsEvaluation(Run(c, es[..|es| - 1]), es[|es| - 1])
    ensures NoneSince(c, es, k)
  {
    hide Run, IsEvaluation;
    var n := |es| - 1;
    forall i | k < i < |es| ensures !IsEvaluation(Run(c, es[..i]), es[i]) {
      if i < n { assert es[..n][..i] == es[..i]; }
    }
  }

  lemma LastEvaluationKept(c: Control, es: seq<Event>, k: nat)
    requires es != [] && LastEvaluation(c, es[..|es| - 1], k) && !IsEvaluation(Run(c, es[..|es| - 1]), es[|es| - 1])
    ensures LastEvaluation(c, es, k)
  {
    assert es[..|es| - 1][..k] == es[..k];
    NoneSinceKept(c, es, k);
  }

  /** One high round is pending exactly when the last evaluation was the first of a pair. */
  lemma {:induction false} PendingHighRound(c: Control, es: seq<Event>)
    requires c.highDelayRuns == 0
    ensures Run(c, es).highDelayRuns in {0, 1}
    ensures Run(c, es).highDelayRuns == 1 ==>
              exists k: nat :: LastEvaluation(c, es, k) && FirstHighRound(Run(c, es[..k]), es[k])
  {
    if es != [] {
      var n := |es| - 1;
      PendingHighRound(c, es[..n]);
      var d := Run(c, es[..n]);
      if IsEvaluation(d, es[n]) {
        assert LastEvaluation(c, es, n);
      } else if Run(c, es).highDelayRuns == 1 {
        var k: nat :| LastEvaluation(c, es[..n], k) && FirstHighRound(Run(c, es[..n][..k]), es[..n][k]);
        assert es[..n][..k] == es[..k];
        LastEvaluationKept(c, es, k);
      }
    }
  }

  /** Without a loss the rate is halved only in the second of two high rounds in a row: the
    * evaluation before was fresh and lossless, above the delay target, and halved nothing. */
  lemma DelayCutNeedsTwoRounds(c: Control, es: seq<Event>, e: Event)
    requires c.highDelayRuns == 0 && IsHalving(Run(c, es), e) && !Run(c, es).lossSince
    ensures e.queueDelay > Run(c, es).queueTarget
    ensures exists k: nat :: LastEvaluation(c, es, k) && FirstHighRound(Run(c, es[..k]), es[k])
  {
    PendingHighRound(c, es);
  }

  /** A pending loss has been observed since the last evaluation. */
  lemma {:induction false} LossIsRecent(c: Control, es: seq<Event>)
    requires !c.lossSince && Run(c, es).lossSince
    ensures exists k: nat :: k < |es| && es[k].Loss? && NoneSince(c, es, k)
  {
    hide Apply, IsEvaluation;
    var n := |es| - 1;
    if es[n].Loss? {
      assert NoneSince(c, es, n);
    } else {
      LossKept(Run(c, es[..n]), es[n]);
      LossIsRecent(c, es[..n]);
      var k: nat :| k < n && es[..n][k].Loss? && NoneSince(c, es[..n], k);
      NoneSinceKept(c, es, k);
      assert es[k].Loss?;
    }
  }

  lemma LossKept(c: Control, e: Event)
    requires !e.Loss? && Apply(c, e).lossSince
    ensures c.lossSince && !IsEvaluation(c, e)
  {}

  /** So one loss halves the rate at most once: the halvings that losses bring about, and one more if a
    * loss is pending at the end, are no more than the losses, and the one pending at the start. */
  lemma {:induction false} LossHalvesOnce(c: Control, es: seq<Event>)
    ensures LossHalvings(c, es) + (if Run(c, es).lossSince then 1 else 0)
         <= Losses(es) + (if c.lossSince then 1 else 0)
  {
    hide Quot, Clamp, Increase;
    if es != [] { LossHalvesOnce(c, es[..|es| - 1]); }
  }

  /** Nothing but samples equal to the estimate, no loss, and no delay above the target. */
  ghost predicate Quiescent(c: Control, es: seq<Event>) {
    && !c.lossSince && SamplesIn(es, c.srtt, c.srtt)
    && forall i | 0 <= i < |es| :: !es[i].Loss? && (es[i].Tick? ==> es[i].queueDelay <= c.queueTarget)
  }

  /** In quiet times every evaluation adds exactly one MTU per smoothed round trip, up to the maximum. */
  lemma {:induction false} SteadyIncrease(c: Control, es: seq<Event>)
    requires InRange(c) && c.mtu >= 0 && c.srtt >= 1 && Quiescent(c, es) && Collapses(c, es) == 0
    ensures var r, grown := Run(c, es), c.rate + Evaluations(c, es) * (c.mtu * SECOND / c.srtt);
            && r.srtt == c.srtt && !r.lossSince && r.queueTarget == c.queueTarget
            && r.rate == if grown > c.max then c.max else grown
  {
    if es != [] {
      var n := |es| - 1;
      var d := Run(c, es[..n]);
      SteadyIncrease(c, es[..n]);
      RateStaysInRange(c, es[..n]);
      DivSign(c.mtu * SECOND, c.srtt);
      SuccTimes(Evaluations(c, es[..n]), c.mtu * SECOND / c.srtt);
      QuietStep(d, es[n]);
    }
  }

  lemma QuietStep(c: Control, e: Event)
    requires InRange(c) && c.mtu >= 0 && c.srtt >= 1 && !c.lossSince && !e.Loss? && !IsCollapse(c, e)
    requires (e.Tick? ==> e.queueDelay <= c.queueTarget) && (e.Feedback? ==> e.rtt == c.srtt)
    ensures var r, inc := Apply(c, e), c.mtu * SECOND / c.srtt;
            && r.srtt == c.srtt && !r.lossSince && r.queueTarget == c.queueTarget
            && r.rate == if !IsEvaluation(c, e) then c.rate else if c.rate + inc > c.max then c.max else c.rate + inc
  {
    DivSign(c.mtu * SECOND, c.srtt);
  }

  // ---------------------------------------------------------------- machine integers

  predicate Fits(x: int) { -INT64_MAX - 1 <= x <= INT64_MAX }

  /** Limits within which no 64-bit product or sum of the controller can wrap around. */
  ghost predicate Moderate(c: Control) {
    && InRange(c) && c.max <= 0x4000_0000_0000_0000
    && 0 <= c.mtu <= 0x1_0000_0000
    && 0 <= c.stale <= 0x2000_0000_0000_0000
    && 0 <= c.srtt <= 0x0800_0000_0000_0000
    && 0 <= c.lastFeedback <= 0x2000_0000_0000_0000
    && 0 <= c.highDelayRuns < INT64_MAX
  }

  ghost predicate ModerateEvents(es: seq<Event>) {
    forall i | 0 <= i < |es| ::
      match es[i]
      case Feedback(now, rtt) => 0 <= rtt <= 0x0800_0000_0000_0000 && 0 <= now <= 0x2000_0000_0000_0000
      case Tick(now, _) => 0 <= now <= 0x2000_0000_0000_0000
      case Loss => true
  }

  lemma {:induction false} StaysModerate(c: Control, es: seq<Event>)
    requires Moderate(c) && ModerateEvents(es)
    ensures Moderate(Run(c, es))
  {
    if es != [] {
      StaysModerate(c, es[..|es| - 1]);
      RateStaysInRange(c, es);
    }
  }

  /** So the controller's 64-bit arithmetic agrees with the integers used here. */
  lemma NoOverflow(c: Control, es: seq<Event>, rtt: int, now: int, queueDelay: int)
    requires Moderate(c) && ModerateEvents(es)
    requires 0 <= rtt <= 0x0800_0000_0000_0000 && 0 <= now <= 0x2000_0000_0000_0000
    ensures var d := Run(c, es);
            && Fits(7 * d.srtt + rtt)
            && Fits(d.mtu * SECOND)
            && Fits(d.rate + Increase(d, queueDelay))
            && Fits(now + EvalPeriod(d))
            && Fits(now - d.lastFeedback)
            && Fits(d.highDelayRuns + 1)
  {
    hide Run, Quot, Increase;
    StaysModerate(c, es);
    IncreaseBound(Run(c, es), queueDelay);
  }

  lemma IncreaseBound(c: Control, queueDelay: int)
    requires c.mtu >= 0
    ensures 0 <= Increase(c, queueDelay) <= c.mtu * SECOND
  {
    var x := c.mtu * SECOND;
    if c.srtt > 0 {
      DivAntitone(x, c.srtt, 1);
      DivSign(x, c.srtt);
    }
  }
}
