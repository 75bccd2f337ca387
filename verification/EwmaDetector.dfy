/** When the EWMA detector reports an anomaly, and with what score. */
module EwmaDetector {
  import opened Common
  import opened Contracts
  import opened Ewma

  datatype Settings = Settings(zThreshold: real, anomalyThreshold: real)

  const DEFAULTS := Settings(3.0, 0.75)
  const STATIC_ONLY_SIGNALS := {"db_connection_utilization"}

  datatype Finding = Finding(score: real, zScore: Option<real>, byZScore: bool, observed: real, samples: nat)

  /** The square root the detector divides by. */
  ghost predicate IsRoot(root: real -> real) {
    forall v :: v > 0.0 ==> root(v) > 0.0 && root(v) * root(v) == v
  }

  function Abs(x: real): real {
    if x < 0.0 then -x else x
  }

  function Clamp(x: real): real {
    if x < 0.0 then 0.0 else if x < 1.0 then x else 1.0
  }

  /** Decimal quantisation to hundredths, halves upward; the argument is never negative. */
  function RoundCents(x: real): real {
    ((x * 100.0 + 0.5).Floor as real) / 100.0
  }

  function RawScore(z: Option<real>, observed: real, threshold: real, staticFired: bool): real
    requires threshold > 0.0
  {
    var zPart := match z case Some(v) => Clamp(Abs(v) / 5.0) case None => if staticFired then 1.0 else 0.0;
    0.6 * zPart + 0.4 * Clamp(observed / threshold)
  }

  function Score(z: Option<real>, observed: real, threshold: real, staticFired: bool): real
    requires threshold > 0.0
  {
    RoundCents(RawScore(z, observed, threshold, staticFired))
  }

  function ZScore(prev: State, x: real, root: real -> real): Option<real> {
    var v := Update(prev, x).variance;
    if v > 0.0 && root(v) > 0.0 then Some((x - prev.mean) / root(v)) else None
  }

  /** What the detector reports after folding `x` into the baseline of its signal. */
  function Judge(prev: Option<State>, x: real, signal: string, threshold: real, settings: Settings, root: real -> real): Option<Finding>
    requires threshold > 0.0
  {
    if prev.None? || prev.value.samples + 1 < MIN_SAMPLES then None
    else
      var z := ZScore(prev.value, x, root);
      var staticFired := x >= threshold;
      var zFired := signal !in STATIC_ONLY_SIGNALS && z.Some? && Abs(z.value) >= settings.zThreshold;
      var score := Score(z, x, threshold, staticFired);
      if !(zFired || staticFired) || score < settings.anomalyThreshold then None
      else Some(Finding(score, z, zFired, x, prev.value.samples + 1))
  }

  // ---------------------------------------------------------------- what a report says of the baseline

  /** `score` is the weight to the nearest hundredth, halves upward. */
  ghost predicate InCents(score: real, weight: real) {
    exists cents: int :: IsCents(cents, score) && cents as real <= 100.0 * weight + 0.5 < cents as real + 1.0
  }

  ghost predicate IsCents(cents: int, score: real) {
    score == cents as real / 100.0
  }

  /** How far the observation stands out, as a fraction of five widened deviations, and how high it
      is, as a fraction of the safety threshold; neither counts beyond one. */
  ghost function Weight(gap: real, variance: real, x: real, threshold: real, root: real -> real): real
    requires threshold > 0.0 && (variance > 0.0 ==> root(variance) > 0.0)
  {
    var spread := if variance > 0.0 && gap < 5.0 * root(variance) then gap / (5.0 * root(variance)) else 1.0;
    var level := if x <= 0.0 then 0.0 else if x < threshold then x / threshold else 1.0;
    0.6 * spread + 0.4 * level
  }

  /** Which observations are reported, and how. On a baseline of four samples or more, an observation
      at the safety threshold, or moved far enough from the mean for a signal not judged by its level
      alone, is reported when its score reaches the anomaly threshold. */
  ghost predicate ReportedAt(prev: State, x: real, signal: string, threshold: real, settings: Settings, root: real -> real,
                             gap: real, variance: real, score: real, found: Option<Finding>)
  {
    var moved := signal != "db_connection_utilization" && variance > 0.0 && gap >= settings.zThreshold * root(variance);
    && (found.Some? <==> prev.samples >= 4 && (x >= threshold || moved) && score >= settings.anomalyThreshold)
    && (found.Some? ==>
          && found.value.score == score && found.value.byZScore == moved
          && found.value.observed == x && found.value.samples == prev.samples + 1
          && (found.value.zScore.Some? <==> variance > 0.0)
          && (variance > 0.0 ==> found.value.zScore.value * root(variance) == x - prev.mean))
  }

  ghost predicate ReportsMove(prev: State, x: real, signal: string, threshold: real, settings: Settings, root: real -> real,
                              gap: real, variance: real, found: Option<Finding>)
    requires threshold > 0.0 && (variance > 0.0 ==> root(variance) > 0.0)
  {
    exists score :: InCents(score, Weight(gap, variance, x, threshold, root))
                    && ReportedAt(prev, x, signal, threshold, settings, root, gap, variance, score, found)
  }

  function Gap(x: real, mean: real): real {
    if x >= mean then x - mean else mean - x
  }

  function Widened(variance: real, gap: real): real {
    0.9 * variance + 0.09 * (gap * gap)
  }

  /** The observation is judged by its gap to the mean and by the variance it has itself widened. */
  ghost predicate Reports(prev: State, x: real, signal: string, threshold: real, settings: Settings, root: real -> real, found: Option<Finding>)
    requires threshold > 0.0 && IsRoot(root)
  {
    ReportsMove(prev, x, signal, threshold, settings, root, Gap(x, prev.mean), Widened(prev.variance, Gap(x, prev.mean)), found)
  }

  lemma RoundsToCents(weight: real)
    ensures InCents(RoundCents(weight), weight)
  {
    assert IsCents((weight * 100.0 + 0.5).Floor, RoundCents(weight));
  }

  lemma VarianceWidens(prev: State, x: real, gap: real)
    requires gap == Gap(x, prev.mean)
    ensures Update(prev, x).variance == Widened(prev.variance, gap)
  {
    assert SquaredGap(x, prev.mean) == gap * gap;
  }

  lemma QuotientOf(d: real, s: real, c: real)
    requires s > 0.0
    ensures (d / s) * s == d
    ensures Abs(d) == Abs(d / s) * s
    ensures Abs(d / s) >= c <==> Abs(d) >= c * s
  {
    var z := d / s;
    assert z * s == d;
    AbsOfProduct(z, s);
    ScaleOrder(Abs(z), c, s);
  }

  lemma AbsOfProduct(z: real, s: real)
    requires s > 0.0
    ensures Abs(z * s) == Abs(z) * s
  {
  }

  lemma ScaleOrder(a: real, c: real, s: real)
    requires s > 0.0
    ensures a >= c <==> a * s >= c * s
  {
    SignOfProduct(a - c, s, (a - c) * s);
    SignOfProduct(c - a, s, (c - a) * s);
  }

  lemma WeighsAsScored(prev: State, x: real, threshold: real, root: real -> real, gap: real, variance: real)
    requires threshold > 0.0 && (variance > 0.0 ==> root(variance) > 0.0) && gap == Abs(x - prev.mean) && variance == Update(prev, x).variance
    requires variance > 0.0 || x >= threshold
    ensures RawScore(ZScore(prev, x, root), x, threshold, x >= threshold) == Weight(gap, variance, x, threshold, root)
  {
    RatioOrder(x, threshold, 0.0);
    RatioOrder(x, threshold, 1.0);
    if variance > 0.0 {
      var s := root(variance);
      QuotientOf(x - prev.mean, s, 5.0);
      FifthOfQuotient(gap, s, Abs((x - prev.mean) / s));
    }
  }

  lemma FifthOfQuotient(gap: real, s: real, z: real)
    requires s > 0.0 && gap == z * s
    ensures z / 5.0 == gap / (5.0 * s)
  {
    var q := gap / (5.0 * s);
    assert q * (5.0 * s) == gap;
    assert (5.0 * q - z) * s == 0.0;
    if 5.0 * q > z {
      SignOfProduct(5.0 * q - z, s, (5.0 * q - z) * s);
    } else if 5.0 * q < z {
      SignOfProduct(z - 5.0 * q, s, (z - 5.0 * q) * s);
    }
  }

  /** The z-score and the z rule, told without dividing. */
  lemma ScoreOfMove(prev: State, x: real, root: real -> real, c: real, variance: real)
    requires variance == Update(prev, x).variance && (variance > 0.0 ==> root(variance) > 0.0)
    ensures var z := ZScore(prev, x, root);
            && (z.Some? <==> variance > 0.0)
            && (z.Some? ==> z.value * root(variance) == x - prev.mean)
            && (z.Some? && Abs(z.value) >= c <==> variance > 0.0 && Abs(x - prev.mean) >= c * root(variance))
  {
    if variance > 0.0 {
      QuotientOf(x - prev.mean, root(variance), c);
    }
  }

  lemma JudgedAt(prev: State, x: real, signal: string, threshold: real, settings: Settings, root: real -> real,
                 z: Option<real>, gap: real, variance: real, weight: real)
    requires threshold > 0.0 && z == ZScore(prev, x, root)
    requires z.Some? <==> variance > 0.0
    requires z.Some? ==> z.value * root(variance) == x - prev.mean
    requires z.Some? && Abs(z.value) >= settings.zThreshold <==> variance > 0.0 && gap >= settings.zThreshold * root(variance)
    requires variance > 0.0 || x >= threshold ==> weight == RawScore(z, x, threshold, x >= threshold)
    ensures ReportedAt(prev, x, signal, threshold, settings, root, gap, variance, RoundCents(weight),
                       Judge(Some(prev), x, signal, threshold, settings, root))
  {
  }

  lemma Assembled(prev: State, x: real, signal: string, threshold: real, settings: Settings, root: real -> real,
                  gap: real, variance: real, score: real, found: Option<Finding>)
    requires threshold > 0.0 && (variance > 0.0 ==> root(variance) > 0.0) && InCents(score, Weight(gap, variance, x, threshold, root))
    requires ReportedAt(prev, x, signal, threshold, settings, root, gap, variance, score, found)
    ensures ReportsMove(prev, x, signal, threshold, settings, root, gap, variance, found)
  {
  }

  lemma ScoredAt(prev: State, x: real, signal: string, threshold: real, settings: Settings, root: real -> real, gap: real, variance: real, weight: real)
    requires threshold > 0.0 && (variance > 0.0 ==> root(variance) > 0.0) && gap == Abs(x - prev.mean) && variance == Update(prev, x).variance
    requires variance > 0.0 || x >= threshold ==> weight == RawScore(ZScore(prev, x, root), x, threshold, x >= threshold)
    ensures ReportedAt(prev, x, signal, threshold, settings, root, gap, variance, RoundCents(weight),
                       Judge(Some(prev), x, signal, threshold, settings, root))
  {
    ScoreOfMove(prev, x, root, settings.zThreshold, variance);
    JudgedAt(prev, x, signal, threshold, settings, root, ZScore(prev, x, root), gap, variance, weight);
  }

  lemma JudgeReportsMove(prev: State, x: real, signal: string, threshold: real, settings: Settings, root: real -> real, gap: real, variance: real)
    requires threshold > 0.0 && (variance > 0.0 ==> root(variance) > 0.0) && gap == Abs(x - prev.mean) && variance == Update(prev, x).variance
    ensures ReportsMove(prev, x, signal, threshold, settings, root, gap, variance, Judge(Some(prev), x, signal, threshold, settings, root))
  {
    var weight := Weight(gap, variance, x, threshold, root);
    if variance > 0.0 || x >= threshold {
      WeighsAsScored(prev, x, threshold, root, gap, variance);
    }
    ScoredAt(prev, x, signal, threshold, settings, root, gap, variance, weight);
    RoundsToCents(weight);
    Assembled(prev, x, signal, threshold, settings, root, gap, variance, RoundCents(weight), Judge(Some(prev), x, signal, threshold, settings, root));
  }

  /** The judgement reports exactly so. */
  lemma JudgeReports(prev: State, x: real, signal: string, threshold: real, settings: Settings, root: real -> real)
    requires threshold > 0.0 && IsRoot(root)
    ensures Reports(prev, x, signal, threshold, settings, root, Judge(Some(prev), x, signal, threshold, settings, root))
  {
    VarianceWidens(prev, x, Gap(x, prev.mean));
    JudgeReportsMove(prev, x, signal, threshold, settings, root, Gap(x, prev.mean), Widened(prev.variance, Gap(x, prev.mean)));
  }

  // ---------------------------------------------------------------- the detector

  /** The part of the detection context the detector reads and writes. */
  class Context {
    const signalAliases: map<string, string>
    const safetyThresholds: map<string, real>
    var ewmaState: map<string, State>
    var updates: map<string, (string, string, State)>

    constructor (aliases: map<string, string>, thresholds: map<string, real>, state: map<string, State>)
      ensures signalAliases == aliases && safetyThresholds == thresholds && ewmaState == state && updates == map[]
    {
      signalAliases, safetyThresholds, ewmaState, updates := aliases, thresholds, state, map[];
    }

    function Canonical(signal: string): string {
      if signal in signalAliases then signalAliases[signal] else signal
    }

    /** The detector looks at an event when it is a metric sample of a signal with a positive
        safety threshold. */
    predicate Considers(event: CanonicalEvent) {
      && event.modality.Metric? && event.signalName.Some? && event.signalValue.Some?
      && Canonical(event.signalName.value) in safetyThresholds
      && safetyThresholds[Canonical(event.signalName.value)] > 0.0
    }
  }

  function StateKey(entityId: string, signal: string): string {
    entityId + ":" + signal
  }

  function Lookup(states: map<string, State>, key: string): Option<State> {
    if key in states then Some(states[key]) else None
  }

  lemma ReportsAreJudgements(event: CanonicalEvent, context: Context, settings: Settings, root: real -> real)
    requires IsRoot(root) && context.Considers(event)
    ensures var signal := context.Canonical(event.signalName.value);
            var key := StateKey(event.entityId, signal);
            key in context.ewmaState ==>
              Reports(context.ewmaState[key], event.signalValue.value, signal, context.safetyThresholds[signal], settings, root,
                      Judge(Some(context.ewmaState[key]), event.signalValue.value, signal, context.safetyThresholds[signal], settings, root))
  {
    var signal := context.Canonical(event.signalName.value);
    var key := StateKey(event.entityId, signal);
    if key in context.ewmaState {
      JudgeReports(context.ewmaState[key], event.signalValue.value, signal, context.safetyThresholds[signal], settings, root);
    }
  }

  method Evaluate(event: CanonicalEvent, context: Context, settings: Settings, root: real -> real) returns (found: Option<Finding>)
    modifies context
    ensures !context.Considers(event) ==>
              found.None? && context.ewmaState == old(context.ewmaState) && context.updates == old(context.updates)
    ensures context.Considers(event) ==>
              var signal := context.Canonical(event.signalName.value);
              var key := StateKey(event.entityId, signal);
              var prev := Lookup(old(context.ewmaState), key);
              var next := Observe(prev, event.signalValue.value);
              && found == Judge(prev, event.signalValue.value, signal, context.safetyThresholds[signal], settings, root)
              && context.ewmaState == old(context.ewmaState)[key := next]
              && context.updates == old(context.updates)[key := (event.entityId, signal, next)]
    ensures context.Considers(event) && IsRoot(root) ==>
              var signal := context.Canonical(event.signalName.value);
              match Lookup(old(context.ewmaState), StateKey(event.entityId, signal))
              case None => found.None?
              case Some(prev) => Reports(prev, event.signalValue.value, signal, context.safetyThresholds[signal], settings, root, found)
  {
    if IsRoot(root) && context.Considers(event) {
      ReportsAreJudgements(event, context, settings, root);
    }
    if !event.modality.Metric? || event.signalName.None? || event.signalValue.None? {
      return None;
    }
    var signal := context.Canonical(event.signalName.value);
    if signal !in context.safetyThresholds || context.safetyThresholds[signal] <= 0.0 {
      return None;
    }
    var threshold := context.safetyThresholds[signal];
    var key := StateKey(event.entityId, signal);
    var observed := event.signalValue.value;
    if key !in context.ewmaState {
      var first := Bootstrap(observed);
      context.ewmaState := context.ewmaState[key := first];
      context.updates := context.updates[key := (event.entityId, signal, first)];
      return None;
    }
    var state := context.ewmaState[key];
    var delta := observed - state.mean;
    var newMean := state.mean + ALPHA * delta;
    var newVariance := (1.0 - ALPHA) * (state.variance + ALPHA * (delta * delta));
    var updated := State(newMean, newVariance, state.samples + 1);
    assert updated == Update(state, observed);
    context.ewmaState := context.ewmaState[key := updated];
    context.updates := context.updates[key := (event.entityId, signal, updated)];
    if updated.samples < MIN_SAMPLES {
      return None;
    }
    var std := if newVariance > 0.0 then root(newVariance) else 0.0;
    var z := if std > 0.0 then Some(delta / std) else None;
    var staticFired := observed >= threshold;
    var zFired := signal !in STATIC_ONLY_SIGNALS && z.Some? && Abs(z.value) >= settings.zThreshold;
    if !(zFired || staticFired) {
      return None;
    }
    var score := Score(z, observed, threshold, staticFired);
    if score < settings.anomalyThreshold {
      return None;
    }
    return Some(Finding(score, z, zFired, observed, updated.samples));
  }

  // ---------------------------------------------------------------- how far z can go

  lemma DivideSquare(d: real, s: real, v: real)
    requires s > 0.0 && s * s == v
    ensures ((d / s) * (d / s)) * v == d * d
  {
    var z := d / s;
    assert z * s == d;
    assert (z * z) * (s * s) == (z * s) * (z * s);
  }

  /** However extreme an observation, its squared z-score against the updated baseline is at most
      100/9: the observation has already widened the variance it is measured by. */
  lemma ZScoreBounded(prev: State, x: real, root: real -> real)
    requires IsRoot(root) && prev.variance >= 0.0
    ensures var z := ZScore(prev, x, root); z.Some? ==> 9.0 * (z.value * z.value) <= 100.0
  {
    var z, v, delta := ZScore(prev, x, root), Update(prev, x).variance, x - prev.mean;
    if z.Some? {
      DivideSquare(delta, root(v), v);
      var q := z.value * z.value;
      assert q * v == delta * delta;
      assert v >= 0.09 * (delta * delta);
      BigTimes(q, v, delta * delta);
    }
  }

  lemma BigTimes(q: real, v: real, d: real)
    requires q * v == d && v > 0.0 && v >= 0.09 * d
    ensures 9.0 * q <= 100.0
  {
    assert (9.0 * q - 100.0) * v == 9.0 * d - 100.0 * v;
    SignOfProduct(9.0 * q - 100.0, v, 9.0 * d - 100.0 * v);
  }

  /** The score's z component is at most two thirds. */
  lemma AbsBounded(z: real)
    requires 9.0 * (z * z) <= 100.0
    ensures Abs(z) / 5.0 <= 2.0 / 3.0
  {
    var a := Abs(z);
    assert a * a == z * z;
    if 3.0 * a > 10.0 {
      assert (3.0 * a) * (3.0 * a) > 10.0 * (3.0 * a) > 100.0;
    }
  }

  /** At the default threshold the z rule fires exactly when the updated variance is positive and
      19 * delta^2 >= 810 * (previous variance), for signals that are not static-only. */
  lemma ZRuleExact(prev: State, x: real, signal: string, root: real -> real)
    requires IsRoot(root) && prev.variance >= 0.0
    ensures var z, delta := ZScore(prev, x, root), x - prev.mean;
            (signal !in STATIC_ONLY_SIGNALS && z.Some? && Abs(z.value) >= DEFAULTS.zThreshold)
            <==> (signal !in STATIC_ONLY_SIGNALS && Update(prev, x).variance > 0.0 && 19.0 * (delta * delta) >= 810.0 * prev.variance)
  {
    var z, v, delta := ZScore(prev, x, root), Update(prev, x).variance, x - prev.mean;
    if v > 0.0 {
      DivideSquare(delta, root(v), v);
      SquareOrder(Abs(z.value), z.value);
      var q := z.value * z.value;
      if q >= 9.0 {
        assert q * v >= 9.0 * v;
      } else {
        assert q * v < 9.0 * v;
      }
    }
  }

  lemma SquareOrder(a: real, z: real)
    requires a == Abs(z)
    ensures a >= 3.0 <==> z * z >= 9.0
  {
    assert a * a == z * z;
    if a >= 3.0 {
      assert a * a >= 3.0 * a >= 9.0;
    } else {
      assert a * a <= 3.0 * a < 9.0;
    }
  }

  /** An anomaly measured against a positive variance never scores above 0.80. */
  lemma ScoreCapped(prev: State, x: real, signal: string, threshold: real, settings: Settings, root: real -> real)
    requires IsRoot(root) && prev.variance >= 0.0 && threshold > 0.0 && Update(prev, x).variance > 0.0
    ensures var found := Judge(Some(prev), x, signal, threshold, settings, root);
            found.Some? ==> found.value.score <= 0.80
  {
    ZScoreBounded(prev, x, root);
    AbsBounded(ZScore(prev, x, root).value);
  }

  /** A moved observation always has a positive variance to be measured by; one that equals a
      constant baseline has none, and a static alert on it scores the full 1.00. */
  lemma VarianceVanishesExactly(prev: State, x: real)
    requires prev.variance >= 0.0
    ensures Update(prev, x).variance > 0.0 <==> x != prev.mean || prev.variance > 0.0
  {
    SqSign(x - prev.mean);
    WidenedVariance(prev.variance, SquaredGap(x, prev.mean));
  }

  lemma WidenedVariance(v: real, q: real)
    requires v >= 0.0 && q >= 0.0
    ensures (1.0 - ALPHA) * (v + ALPHA * q) > 0.0 <==> v > 0.0 || q > 0.0
  {
  }

  lemma SqSign(d: real)
    ensures Sq(d) >= 0.0
    ensures Sq(d) > 0.0 <==> d != 0.0
  {
    SignOfProduct(d, d, Sq(d));
  }

  lemma SignOfProduct(a: real, b: real, q: real)
    requires q == a * b
    ensures (a > 0.0 && b > 0.0) || (a < 0.0 && b < 0.0) ==> q > 0.0
    ensures a == 0.0 ==> q == 0.0
  {
  }

  lemma ConstantBaselineScoresFull(prev: State, threshold: real, signal: string, root: real -> real)
    requires threshold > 0.0 && prev.variance == 0.0 && prev.mean >= threshold && prev.samples + 1 >= MIN_SAMPLES
    ensures Judge(Some(prev), prev.mean, signal, threshold, DEFAULTS, root)
         == Some(Finding(1.0, None, false, prev.mean, prev.samples + 1))
  {
    assert Update(prev, prev.mean).variance == 0.0;
    RatioOrder(prev.mean, threshold, 1.0);
    assert RawScore(None, prev.mean, threshold, true) == 1.0;
  }

  lemma RatioOrder(x: real, t: real, c: real)
    requires t > 0.0
    ensures x / t >= c <==> x >= c * t
  {
    var q := x / t;
    assert q * t == x;
    if q >= c {
      assert q * t >= c * t;
    } else {
      assert q * t < c * t;
    }
  }

  /** At the default settings every anomaly, of whichever rule, was observed at 0.8625 of its safety
      threshold or more, on a baseline of at least five samples. */
  lemma AnomaliesNearSafety(prev: Option<State>, x: real, signal: string, threshold: real, root: real -> real)
    requires IsRoot(root) && threshold > 0.0 && (prev.Some? ==> prev.value.variance >= 0.0)
    ensures var found := Judge(prev, x, signal, threshold, DEFAULTS, root);
            found.Some? ==> x >= 0.8625 * threshold && found.value.samples >= MIN_SAMPLES
  {
    var found := Judge(prev, x, signal, threshold, DEFAULTS, root);
    if found.Some? {
      RatioOrder(x, threshold, 0.8625);
      RatioOrder(x, threshold, 1.0);
      var z := ZScore(prev.value, x, root);
      if z.Some? {
        ZScoreBounded(prev.value, x, root);
        AbsBounded(z.value);
        RoundingFloor(RawScore(z, x, threshold, x >= threshold));
      }
    }
  }

  lemma RoundingFloor(raw: real)
    requires RoundCents(raw) >= 0.75
    ensures raw >= 0.745
  {
    var f := (raw * 100.0 + 0.5).Floor;
    assert f as real >= 75.0;
    assert f as real <= raw * 100.0 + 0.5;
  }

  // ---------------------------------------------------------------- reports at the default settings

  lemma RootOrder(gap: real, s: real, v: real)
    requires gap >= 0.0 && s > 0.0 && s * s == v
    ensures gap >= 3.0 * s <==> gap * gap >= 9.0 * v
  {
    var high, low := gap + 3.0 * s, gap - 3.0 * s;
    assert high * low == gap * gap - 9.0 * v;
    SignOfProduct(high, low, high * low);
    SignOfProduct(high, -low, high * -low);
  }

  /** At the default settings the detector reports an observation exactly when it reaches the safety
      threshold or the updated variance is positive and 19 * gap^2 >= 810 * (previous variance), and
      weighs 0.745 or more; the z rule is named exactly in the second case. */
  lemma DefaultReportsExactly(prev: State, x: real, signal: string, threshold: real, root: real -> real, found: Option<Finding>)
    requires threshold > 0.0 && IsRoot(root) && Reports(prev, x, signal, threshold, DEFAULTS, root, found)
    ensures var gap := Gap(x, prev.mean);
            var variance := Widened(prev.variance, gap);
            var moved := signal != "db_connection_utilization" && variance > 0.0 && 19.0 * (gap * gap) >= 810.0 * prev.variance;
            && (found.Some? <==> prev.samples >= 4 && (x >= threshold || moved) && Weight(gap, variance, x, threshold, root) >= 0.745)
            && (found.Some? ==> found.value.byZScore == moved && InCents(found.value.score, Weight(gap, variance, x, threshold, root)))
  {
    var gap := Gap(x, prev.mean);
    var variance := Widened(prev.variance, gap);
    var weight := Weight(gap, variance, x, threshold, root);
    var score :| InCents(score, weight) && ReportedAt(prev, x, signal, threshold, DEFAULTS, root, gap, variance, score, found);
    if variance > 0.0 {
      RootOrder(gap, root(variance), variance);
    }
    EnoughCents(score, weight);
  }

  lemma EnoughCents(score: real, weight: real)
    requires InCents(score, weight)
    ensures score >= 0.75 <==> weight >= 0.745
  {
    var cents :| IsCents(cents, score) && cents as real <= 100.0 * weight + 0.5 < cents as real + 1.0;
    assert score >= 0.75 <==> cents >= 75;
  }

  lemma {:induction false} SteadyBaseline(history: seq<real>, x: real)
    requires history != [] && forall i :: 0 <= i < |history| ==> history[i] == x
    ensures Baseline(history) == Some(State(x, 0.0, |history|))
  {
    if |history| > 1 {
      SteadyBaseline(history[..|history| - 1], x);
      assert SquaredGap(x, x) == 0.0;
    } else {
      assert history[..0] == [];
    }
  }

  lemma OnlyRoot(s: real, r: real)
    requires s > 0.0 && r > 0.0 && s * s == r * r
    ensures s == r
  {
    SignOfProduct(s - r, s + r, (s - r) * (s + r));
    SignOfProduct(r - s, s + r, (r - s) * (s + r));
    assert (s - r) * (s + r) == s * s - r * r;
    assert (r - s) * (s + r) == r * r - s * s;
  }

  /** Four samples of 0.90 and then 0.95 are reported well below a safety threshold of 1.0: the z-score
      is 10/3 and the score 0.78. */
  lemma DriftIsReported(signal: string, root: real -> real, found: Option<Finding>)
    requires IsRoot(root) && signal != "db_connection_utilization"
    requires Reports(State(0.90, 0.0, 4), 0.95, signal, 1.0, DEFAULTS, root, found)
    ensures Baseline([0.90, 0.90, 0.90, 0.90]) == Some(State(0.90, 0.0, 4))
    ensures found == Some(Finding(0.78, Some(10.0 / 3.0), true, 0.95, 5))
  {
    SteadyBaseline([0.90, 0.90, 0.90, 0.90], 0.90);
    var prev, gap, variance := State(0.90, 0.0, 4), 0.05, 0.000225;
    assert Gap(0.95, 0.90) == gap && Widened(0.0, gap) == variance;
    OnlyRoot(root(variance), 0.015);
    assert Weight(gap, variance, 0.95, 1.0, root) == 0.78;
    var score :| InCents(score, 0.78) && ReportedAt(prev, 0.95, signal, 1.0, DEFAULTS, root, gap, variance, score, found);
    var cents :| IsCents(cents, score) && cents as real <= 78.5 < cents as real + 1.0;
    assert cents == 78;
    assert found.value.zScore.value * 0.015 == 0.05;
  }
}
