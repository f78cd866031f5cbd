/**
 The operational risk index: it combines the four stored predictions with a
 fixed traffic-density baseline, and is computed only once all four exist.
 Also the copilot's count of available predictions and the ranked list of
 risk factors.
 */
module OperationalRisk {
  import opened Wrappers
  import opened Truncation
  import opened WeatherRisk
  import opened CrewRisk
  import opened RiskActions
  import Sorting

  /** The four stored prediction results, each possibly not yet produced. */
  datatype Analysis = Analysis(
    weather: Option<WeatherResult>,
    crew: Option<CrewResult>,
    equipment: Option<EquipmentResult>,
    emergency: Option<EmergencyResult>)

  datatype Prediction = WeatherDelay | CrewSickness | EquipmentFailure | EmergencyLandingRisk

  /** Position of a prediction in the fixed reporting order. */
  function Position(k: Prediction): nat {
    match k
    case WeatherDelay => 0
    case CrewSickness => 1
    case EquipmentFailure => 2
    case EmergencyLandingRisk => 3
  }

  predicate IsMissing(an: Analysis, k: Prediction) {
    match k
    case WeatherDelay => an.weather.None?
    case CrewSickness => an.crew.None?
    case EquipmentFailure => an.equipment.None?
    case EmergencyLandingRisk => an.emergency.None?
  }

  /** The predictions still missing, in the fixed order weather, crew, equipment, emergency. */
  function MissingPredictions(an: Analysis): (r: seq<Prediction>)
    ensures forall k :: k in r <==> IsMissing(an, k)
    ensures forall i, j :: 0 <= i < j < |r| ==> Position(r[i]) < Position(r[j])
  {
    (if an.weather.None? then [WeatherDelay] else [])
    + (if an.crew.None? then [CrewSickness] else [])
    + (if an.equipment.None? then [EquipmentFailure] else [])
    + (if an.emergency.None? then [EmergencyLandingRisk] else [])
  }

  /** Number of predictions already produced. */
  function AvailableCount(an: Analysis): (r: nat)
    ensures r <= 4
  {
    (if an.weather.Some? then 1 else 0)
    + (if an.crew.Some? then 1 else 0)
    + (if an.equipment.Some? then 1 else 0)
    + (if an.emergency.Some? then 1 else 0)
  }

  /** Every prediction is either available or listed as missing, never both. */
  lemma AvailablePlusMissing(an: Analysis)
    ensures AvailableCount(an) + |MissingPredictions(an)| == 4
    ensures AvailableCount(an) <= 4
  {
  }

  const TrafficDensity: real := 50.0

  /** The weighted sum before truncation; the weights 0.25, 0.20, 0.30, 0.20, 0.05 sum to 1. */
  function WeightedRisk(weather: real, crew: real, equipment: real, emergency: real): real {
    weather * 0.25 + crew * 0.20 + equipment * 0.30 + emergency * 0.20 + TrafficDensity * 0.05
  }

  /** Percentages in 0..100 give a weighted risk in 2.5..97.5, hence an index in 2..97. */
  lemma WeightedRiskBounds(weather: real, crew: real, equipment: real, emergency: real)
    requires 0.0 <= weather <= 100.0 && 0.0 <= crew <= 100.0
    requires 0.0 <= equipment <= 100.0 && 0.0 <= emergency <= 100.0
    ensures 2.5 <= WeightedRisk(weather, crew, equipment, emergency) <= 97.5
    ensures 2 <= Trunc(WeightedRisk(weather, crew, equipment, emergency)) <= 97
  {
  }

  /** Raising any one component never lowers the weighted risk. */
  lemma WeightedRiskMonotone(w: real, c: real, e: real, m: real, w': real, c': real, e': real, m': real)
    requires w <= w' && c <= c' && e <= e' && m <= m'
    ensures WeightedRisk(w, c, e, m) <= WeightedRisk(w', c', e', m')
    ensures Trunc(WeightedRisk(w, c, e, m)) <= Trunc(WeightedRisk(w', c', e', m'))
  {
    TruncMonotone(WeightedRisk(w, c, e, m), WeightedRisk(w', c', e', m'));
  }

  /** The index, or `None` while any prediction is missing. */
  function OperationalIndex(an: Analysis): (r: Option<int>)
    ensures r.Some? <==> |MissingPredictions(an)| == 0
    ensures r.Some? <==> AvailableCount(an) == 4
    ensures r.Some? ==> r.value == Trunc(WeightedRisk(
              an.weather.value.riskPercentage as real, an.crew.value.probability as real,
              an.equipment.value.failureProbability, an.emergency.value.emergencyProbability))
  {
    if |MissingPredictions(an)| > 0 then None
    else
      Some(Trunc(WeightedRisk(
        an.weather.value.riskPercentage as real, an.crew.value.probability as real,
        an.equipment.value.failureProbability, an.emergency.value.emergencyProbability)))
  }

  /** With all four percentages in 0..100 the index lies in 2..97. */
  lemma OperationalIndexBounds(an: Analysis)
    requires AvailableCount(an) == 4
    requires 0 <= an.weather.value.riskPercentage <= 100
    requires 0 <= an.crew.value.probability <= 100
    requires 0.0 <= an.equipment.value.failureProbability <= 100.0
    requires 0.0 <= an.emergency.value.emergencyProbability <= 100.0
    ensures OperationalIndex(an).Some?
    ensures 2 <= OperationalIndex(an).value <= 97
  {
    WeightedRiskBounds(an.weather.value.riskPercentage as real, an.crew.value.probability as real,
      an.equipment.value.failureProbability, an.emergency.value.emergencyProbability);
  }

  datatype OperationalLevel = STABLE | ELEVATED | CRITICAL

  function OperationalRank(l: OperationalLevel): nat {
    match l
    case STABLE => 0
    case ELEVATED => 1
    case CRITICAL => 2
  }

  function OperationalLevelOf(risk: int): (l: OperationalLevel)
    ensures l == STABLE <==> risk <= 40
    ensures l == CRITICAL <==> 70 < risk
  {
    if risk <= 40 then STABLE else if risk <= 70 then ELEVATED else CRITICAL
  }

  /** The operational level is monotone and cuts where the crew level cuts. */
  lemma OperationalLevelProperties(x: int, y: int)
    ensures x <= y ==> OperationalRank(OperationalLevelOf(x)) <= OperationalRank(OperationalLevelOf(y))
    ensures OperationalRank(OperationalLevelOf(x)) == CrewLevelRank(CrewLevelOf(x))
  {
  }

  // ---------------------------------------------------------------- ranked risk factors

  datatype FactorName = Equipment | Weather | Crew | Emergency | Traffic

  /** A risk factor with its current value and its weight in percent. */
  datatype Factor = Factor(name: FactorName, value: real, weight: nat)

  /** The factors in the order the page lists them before ranking. */
  function Factors(weather: real, crew: real, equipment: real, emergency: real): seq<Factor> {
    [ Factor(Equipment, equipment, 30), Factor(Weather, weather, 25), Factor(Crew, crew, 20),
      Factor(Emergency, emergency, 20), Factor(Traffic, TrafficDensity, 5) ]
  }

  predicate NotLess(x: Factor, y: Factor) {
    x.value >= y.value
  }

  lemma NotLessOrder()
    ensures Sorting.Total(NotLess)
    ensures Sorting.Transitive(NotLess)
  {
  }

  /** Any factor list, highest value first; equal values keep their listed order. */
  function RankByValue(fs: seq<Factor>): (r: seq<Factor>)
    ensures multiset(r) == multiset(fs)
    ensures |r| == |fs|
    ensures forall i, j :: 0 <= i < j < |r| ==> r[i].value >= r[j].value
  {
    NotLessOrder();
    var r := Sorting.SortBy(fs, NotLess);
    Sorting.SortedIsPairwise(r, NotLess);
    assert forall i, j :: 0 <= i < j < |r| ==> NotLess(r[i], r[j]);
    r
  }

  /** The factors whose value is `v`: one class of ties for `NotLess`. */
  function HasValue(v: real): Factor -> bool {
    (x: Factor) => x.value == v
  }

  /** Factors with equal values keep their listed order, as Python's stable sort keeps them. */
  lemma RankByValueStable(fs: seq<Factor>, v: real)
    ensures Sorting.Filter(RankByValue(fs), HasValue(v)) == Sorting.Filter(fs, HasValue(v))
  {
    NotLessOrder();
    assert Sorting.Tied(HasValue(v), NotLess);
    Sorting.SortByStable(fs, NotLess, HasValue(v));
  }

  /** The five factors ranked as the page shows them. */
  function RankedFactors(weather: real, crew: real, equipment: real, emergency: real): (r: seq<Factor>)
    ensures multiset(r) == multiset(Factors(weather, crew, equipment, emergency))
    ensures |r| == 5
    ensures forall i, j :: 0 <= i < j < |r| ==> r[i].value >= r[j].value
  {
    var fs := Factors(weather, crew, equipment, emergency);
    assert |fs| == 5;
    RankByValue(fs)
  }

  /** Every factor appears in the ranking. */
  lemma RankedFactorsArePermutation(weather: real, crew: real, equipment: real, emergency: real, n: FactorName)
    ensures exists x :: x in RankedFactors(weather, crew, equipment, emergency) && x.name == n
  {
    var fs := Factors(weather, crew, equipment, emergency);
    var r := RankedFactors(weather, crew, equipment, emergency);
    var k := match n
      case Equipment => 0
      case Weather => 1
      case Crew => 2
      case Emergency => 3
      case Traffic => 4;
    assert fs[k].name == n;
    assert fs[k] in multiset(fs);
    assert fs[k] in r;
  }
}
