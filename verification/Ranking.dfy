/** The scoring rubric: weighted factors, catalogue conflict effects and the final order. */
module Ranking {
  import opened Common
  import opened Sorting

  /** The rubric's factors. A conflict pattern of the catalogue names its factor freely, so a name
      outside the rubric is possible. */
  datatype Factor =
    | SymptomCompatibility
    | TopologyRelevance
    | DirectLogsAlerts
    | PropagationConsistency
    | MetricAnomaly
    | ChangeCausalFit
    | TemporalProximity
    | HistoricalSimilarity
    | Unsupported(name: string)

  type Factors = map<Factor, real>

  datatype RankingError = UnsupportedFactor

  type Rubric = seq<(Factor, real)>

  const WEIGHTS: Rubric := [
    (SymptomCompatibility, 0.25),
    (TopologyRelevance, 0.20),
    (DirectLogsAlerts, 0.15),
    (PropagationConsistency, 0.15),
    (MetricAnomaly, 0.10),
    (ChangeCausalFit, 0.10),
    (TemporalProximity, 0.03),
    (HistoricalSimilarity, 0.02)
  ]

  /** Decimal's ROUND_HALF_UP to one place: halves move away from zero. */
  function RoundHalfUp(x: real): real {
    if x >= 0.0 then (10.0 * x + 0.5).Floor as real / 10.0
    else -((-10.0 * x + 0.5).Floor as real / 10.0)
  }

  function Value(factors: Factors, f: Factor): real {
    if f in factors then factors[f] else 0.0
  }

  /** The weighted sum over the rubric's rows from the `i`-th on. */
  function SumFrom(rubric: Rubric, factors: Factors, i: nat): real
    decreases |rubric| - i
  {
    if i >= |rubric| then 0.0
    else rubric[i].1 * Value(factors, rubric[i].0) + SumFrom(rubric, factors, i + 1)
  }

  function WeightedSum(factors: Factors): real {
    SumFrom(WEIGHTS, factors, 0)
  }

  /** Missing factors count zero; an unknown one is refused. */
  function ScoreFactors(factors: Factors): Outcome<real, RankingError> {
    if exists f :: f in factors && f.Unsupported? then Raised(UnsupportedFactor)
    else Ok(RoundHalfUp(100.0 * WeightedSum(factors)))
  }

  // ---------------------------------------------------------------- the weighted sum

  predicate InUnit(factors: Factors) {
    forall f :: f in factors ==> 0.0 <= factors[f] <= 1.0
  }

  /** Every factor of `a` is at most that of `b`; a missing factor counts zero. */
  ghost predicate Below(a: Factors, b: Factors) {
    forall f :: Value(a, f) <= Value(b, f)
  }

  function WeightFrom(rubric: Rubric, i: nat): real
    decreases |rubric| - i
  {
    if i >= |rubric| then 0.0 else rubric[i].1 + WeightFrom(rubric, i + 1)
  }

  ghost predicate Positive(rubric: Rubric) {
    forall i :: 0 <= i < |rubric| ==> rubric[i].1 > 0.0
  }

  lemma WeightsSumToOne()
    ensures WeightFrom(WEIGHTS, 0) == 1.0 && Positive(WEIGHTS)
  {
    assert WeightFrom(WEIGHTS, 6) == 0.05;
    assert WeightFrom(WEIGHTS, 4) == 0.25;
    assert WeightFrom(WEIGHTS, 2) == 0.55;
  }

  lemma {:induction false} SumBounded(rubric: Rubric, factors: Factors, i: nat)
    requires Positive(rubric) && InUnit(factors)
    ensures 0.0 <= SumFrom(rubric, factors, i) <= WeightFrom(rubric, i)
    decreases |rubric| - i
  {
    if i < |rubric| {
      SumBounded(rubric, factors, i + 1);
      ShareBounded(rubric[i].1, Value(factors, rubric[i].0));
    }
  }

  lemma {:induction false} SumMonotone(rubric: Rubric, a: Factors, b: Factors, i: nat)
    requires Positive(rubric) && Below(a, b)
    ensures SumFrom(rubric, a, i) <= SumFrom(rubric, b, i)
    decreases |rubric| - i
  {
    if i < |rubric| {
      SumMonotone(rubric, a, b, i + 1);
      ScaleMonotone(rubric[i].1, Value(a, rubric[i].0), Value(b, rubric[i].0));
    }
  }

  lemma ShareBounded(w: real, x: real)
    requires w > 0.0 && 0.0 <= x <= 1.0
    ensures 0.0 <= w * x <= w
  {
  }

  lemma ScaleMonotone(w: real, x: real, y: real)
    requires w > 0.0 && x <= y
    ensures w * x <= w * y
  {
  }

  lemma RoundingIsTight(x: real)
    ensures -0.05 <= RoundHalfUp(x) - x <= 0.05
    ensures x >= 0.0 ==> RoundHalfUp(x) - x > -0.05
  {
  }

  lemma RoundingMonotone(x: real, y: real)
    requires x <= y
    ensures RoundHalfUp(x) <= RoundHalfUp(y)
  {
    FloorMonotone(10.0 * x + 0.5, 10.0 * y + 0.5);
    FloorMonotone(-10.0 * y + 0.5, -10.0 * x + 0.5);
    if x < 0.0 <= y {
      FloorMonotone(0.5, -10.0 * x + 0.5);
      FloorMonotone(0.5, 10.0 * y + 0.5);
    }
  }

  lemma FloorMonotone(x: real, y: real)
    requires x <= y
    ensures x.Floor <= y.Floor
  {
  }

  /** A score of rubric factors in the unit interval lies in [0, 100] and is within 0.05 of the
      exact weighted sum. */
  lemma ScoreInRange(factors: Factors)
    requires InUnit(factors) && ScoreFactors(factors).Ok?
    ensures 0.0 <= ScoreFactors(factors).value <= 100.0
    ensures var exact := 100.0 * WeightedSum(factors);
            -0.05 < ScoreFactors(factors).value - exact <= 0.05
  {
    WeightsSumToOne();
    SumBounded(WEIGHTS, factors, 0);
    RoundingIsTight(100.0 * WeightedSum(factors));
    RoundingMonotone(100.0 * WeightedSum(factors), 100.0);
    RoundingMonotone(0.0, 100.0 * WeightedSum(factors));
  }

  /** A factor's full points are its share of the hundred. */
  lemma ScoreInPoints(factors: Factors)
    requires ScoreFactors(factors).Ok?
    ensures var points := 25.0 * Value(factors, SymptomCompatibility) + 20.0 * Value(factors, TopologyRelevance)
                          + 15.0 * Value(factors, DirectLogsAlerts) + 15.0 * Value(factors, PropagationConsistency)
                          + 10.0 * Value(factors, MetricAnomaly) + 10.0 * Value(factors, ChangeCausalFit)
                          + 3.0 * Value(factors, TemporalProximity) + 2.0 * Value(factors, HistoricalSimilarity);
            ScoreFactors(factors).value == RoundHalfUp(points)
  {
    var last := SumFrom(WEIGHTS, factors, 6);
    assert last == 0.03 * Value(factors, TemporalProximity) + 0.02 * Value(factors, HistoricalSimilarity);
    var late := SumFrom(WEIGHTS, factors, 4);
    assert late == 0.10 * Value(factors, MetricAnomaly) + 0.10 * Value(factors, ChangeCausalFit) + last;
    var middle := SumFrom(WEIGHTS, factors, 2);
    assert middle == 0.15 * Value(factors, DirectLogsAlerts) + 0.15 * Value(factors, PropagationConsistency) + late;
    assert WeightedSum(factors) == 0.25 * Value(factors, SymptomCompatibility) + 0.20 * Value(factors, TopologyRelevance) + middle;
  }

  /** What each factor alone is worth. */
  lemma PointsAlone(f: Factor, factors: Factors)
    requires !f.Unsupported? && factors == map[f := 1.0]
    ensures ScoreFactors(factors) == Ok(match f
                                        case SymptomCompatibility => 25.0
                                        case TopologyRelevance => 20.0
                                        case DirectLogsAlerts => 15.0
                                        case PropagationConsistency => 15.0
                                        case MetricAnomaly => 10.0
                                        case ChangeCausalFit => 10.0
                                        case TemporalProximity => 3.0
                                        case HistoricalSimilarity => 2.0)
  {
    ScoreInPoints(factors);
    forall g ensures Value(factors, g) == if g == f then 1.0 else 0.0 {
    }
    WholePoints(25);
    WholePoints(20);
    WholePoints(15);
    WholePoints(10);
    WholePoints(3);
    WholePoints(2);
  }

  lemma WholePoints(n: nat)
    ensures RoundHalfUp(n as real) == n as real
  {
    var tenths := 10 * n;
    assert 10.0 * n as real + 0.5 == tenths as real + 0.5;
    HalfAbove(tenths);
    assert tenths as real / 10.0 == n as real;
  }

  lemma HalfAbove(n: int)
    ensures (n as real + 0.5).Floor == n
  {
  }

  /** Raising any factor never lowers the score. */
  lemma ScoreMonotone(a: Factors, b: Factors)
    requires Below(a, b) && ScoreFactors(a).Ok? && ScoreFactors(b).Ok?
    ensures ScoreFactors(a).value <= ScoreFactors(b).value
  {
    WeightsSumToOne();
    SumMonotone(WEIGHTS, a, b, 0);
    RoundingMonotone(100.0 * WeightedSum(a), 100.0 * WeightedSum(b));
  }

  /** The names that can be scored are exactly those with a weight. */
  lemma SupportedMeansWeighted(f: Factor)
    ensures f.Unsupported? <==> forall i :: 0 <= i < |WEIGHTS| ==> WEIGHTS[i].0 != f
  {
    if !f.Unsupported? {
      var i := match f
        case SymptomCompatibility => 0
        case TopologyRelevance => 1
        case DirectLogsAlerts => 2
        case PropagationConsistency => 3
        case MetricAnomaly => 4
        case ChangeCausalFit => 5
        case TemporalProximity => 6
        case HistoricalSimilarity => 7;
      assert WEIGHTS[i].0 == f;
    }
  }

  // ---------------------------------------------------------------- conflict effects

  datatype Operation = Subtract | Cap

  datatype Effect = Effect(factor: Factor, operation: Operation, amount: real)

  function Clamp(x: real): real {
    if x < 0.0 then 0.0 else if x > 1.0 then 1.0 else x
  }

  function Changed(current: real, e: Effect): real {
    Clamp(match e.operation
          case Subtract => current - e.amount
          case Cap => if current <= e.amount then current else e.amount)
  }

  function Apply(factors: Factors, e: Effect): Outcome<Factors, RankingError> {
    if e.factor !in factors || e.factor.Unsupported? then Raised(UnsupportedFactor)
    else Ok(factors[e.factor := Changed(factors[e.factor], e)])
  }

  /** The effects in order; the first unsupported one ends it. */
  function ApplyAll(factors: Factors, effects: seq<Effect>): Outcome<Factors, RankingError> {
    if effects == [] then Ok(factors)
    else
      match ApplyAll(factors, effects[..|effects| - 1])
      case Raised(e) => Raised(e)
      case Ok(before) => Apply(before, effects[|effects| - 1])
  }

  /** The catalogue validates an effect's value to be in the unit interval. */
  predicate Bounded(effects: seq<Effect>) {
    forall i :: 0 <= i < |effects| ==> 0.0 <= effects[i].amount <= 1.0
  }

  /** What one more effect does to a table in the unit interval: a cap leaves the smaller of the two
      values, a subtraction what is left above zero, and no other factor moves. */
  lemma LastEffect(factors: Factors, effects: seq<Effect>, e: Effect)
    requires InUnit(factors) && Bounded(effects + [e]) && ApplyAll(factors, effects + [e]).Ok?
    ensures ApplyAll(factors, effects).Ok? && e.factor in ApplyAll(factors, effects).value
    ensures var before, after := ApplyAll(factors, effects).value, ApplyAll(factors, effects + [e]).value;
            && (forall f :: f != e.factor ==> Value(after, f) == Value(before, f))
            && (e.operation == Cap ==> after[e.factor] <= e.amount && after[e.factor] <= before[e.factor])
            && (e.operation == Cap ==> after[e.factor] == e.amount || after[e.factor] == before[e.factor])
            && (e.operation == Subtract && e.amount <= before[e.factor] ==> after[e.factor] == before[e.factor] - e.amount)
            && (e.operation == Subtract && before[e.factor] <= e.amount ==> after[e.factor] == 0.0)
  {
    assert (effects + [e])[..|effects|] == effects;
    assert Bounded(effects) by {
      assert forall i :: 0 <= i < |effects| ==> (effects + [e])[i] == effects[i];
    }
    assert (effects + [e])[|effects|] == e;
    EffectsOnlyLower(factors, effects);
  }

  /** No sequence of conflict effects takes a factor out of the unit interval, adds one, or raises one. */
  lemma {:induction false} EffectsOnlyLower(factors: Factors, effects: seq<Effect>)
    requires InUnit(factors) && Bounded(effects) && ApplyAll(factors, effects).Ok?
    ensures var after := ApplyAll(factors, effects).value;
            InUnit(after) && Below(after, factors) && after.Keys == factors.Keys
  {
    if effects != [] {
      EffectsOnlyLower(factors, effects[..|effects| - 1]);
    }
  }

  /** An effect preserves the order between two factor tables. */
  lemma EffectMonotone(a: Factors, b: Factors, e: Effect)
    requires Below(a, b) && a.Keys == b.Keys && Apply(a, e).Ok?
    ensures Apply(b, e).Ok? && Below(Apply(a, e).value, Apply(b, e).value)
    ensures Apply(a, e).value.Keys == Apply(b, e).value.Keys
  {
    assert Value(a, e.factor) <= Value(b, e.factor);
    forall f ensures Value(Apply(a, e).value, f) <= Value(Apply(b, e).value, f) {
      assert Value(a, f) <= Value(b, f);
    }
  }

  /** `few` is `many` with some effects left out. */
  ghost predicate Thinned(few: seq<Effect>, many: seq<Effect>) {
    if many == [] then few == []
    else
      var init, last := many[..|many| - 1], many[|many| - 1];
      Thinned(few, init) || (few != [] && few[|few| - 1] == last && Thinned(few[..|few| - 1], init))
  }

  lemma {:induction false} MoreEffectsLower(a: Factors, b: Factors, many: seq<Effect>, few: seq<Effect>)
    requires InUnit(a) && InUnit(b) && Bounded(many) && Below(a, b) && a.Keys == b.Keys
    requires Thinned(few, many) && ApplyAll(a, many).Ok?
    ensures ApplyAll(b, few).Ok? && ApplyAll(b, few).value.Keys == ApplyAll(a, many).value.Keys
    ensures Below(ApplyAll(a, many).value, ApplyAll(b, few).value)
    decreases |many|
  {
    if many != [] {
      var init, last := many[..|many| - 1], many[|many| - 1];
      if Thinned(few, init) {
        MoreEffectsLower(a, b, init, few);
        EffectsOnlyLower(a, init);
        LaterEffectLowers(ApplyAll(a, init).value, last);
        BelowChains(ApplyAll(a, many).value, ApplyAll(a, init).value, ApplyAll(b, few).value);
      } else {
        MoreEffectsLower(a, b, init, few[..|few| - 1]);
        EffectMonotone(ApplyAll(a, init).value, ApplyAll(b, few[..|few| - 1]).value, last);
      }
    }
  }

  lemma LaterEffectLowers(factors: Factors, e: Effect)
    requires InUnit(factors) && 0.0 <= e.amount <= 1.0 && Apply(factors, e).Ok?
    ensures Below(Apply(factors, e).value, factors) && Apply(factors, e).value.Keys == factors.Keys
  {
  }

  lemma BelowChains(a: Factors, b: Factors, c: Factors)
    requires Below(a, b) && Below(b, c)
    ensures Below(a, c)
  {
    forall f ensures Value(a, f) <= Value(c, f) {
      assert Value(a, f) <= Value(b, f) <= Value(c, f);
    }
  }

  /** The ranker's conflict loop. */
  method ApplyConflicts(factors: Factors, effects: seq<Effect>) returns (r: Outcome<Factors, RankingError>)
    ensures r == ApplyAll(factors, effects)
  {
    var current := factors;
    for i := 0 to |effects|
      invariant ApplyAll(factors, effects[..i]) == Ok(current)
    {
      var e := effects[i];
      assert effects[..i + 1][..i] == effects[..i];
      if e.factor !in current || e.factor.Unsupported? {
        FailureSticks(factors, effects, i + 1);
        return Raised(UnsupportedFactor);
      }
      var updated;
      if e.operation.Subtract? {
        updated := current[e.factor] - e.amount;
      } else {
        updated := if current[e.factor] <= e.amount then current[e.factor] else e.amount;
      }
      current := current[e.factor := Clamp(updated)];
    }
    assert effects[..|effects|] == effects;
    r := Ok(current);
  }

  lemma {:induction false} FailureSticks(factors: Factors, effects: seq<Effect>, n: nat)
    requires n <= |effects| && ApplyAll(factors, effects[..n]).Raised?
    ensures ApplyAll(factors, effects) == Raised(UnsupportedFactor)
    decreases |effects| - n
  {
    if n < |effects| {
      assert effects[..n + 1][..n] == effects[..n];
      FailureSticks(factors, effects, n + 1);
    } else {
      assert effects[..n] == effects;
      RaisedHow(factors, effects);
    }
  }

  lemma {:induction false} RaisedHow(factors: Factors, effects: seq<Effect>)
    requires ApplyAll(factors, effects).Raised?
    ensures ApplyAll(factors, effects) == Raised(UnsupportedFactor)
  {
    assert ApplyAll(factors, effects).error.UnsupportedFactor?;
  }
}
