/** The weather-delay prediction: clamping, delay band and risk percentage. */
module WeatherRisk {
  import opened Truncation

  const MaxDelay: real := 180.0

  /** A model-predicted delay is forced into 0..180 minutes. */
  function ClampDelay(d: real): (r: real)
    ensures 0.0 <= r <= MaxDelay
    ensures 0.0 <= d <= MaxDelay ==> r == d
    ensures d < 0.0 ==> r == 0.0
    ensures d > MaxDelay ==> r == MaxDelay
  {
    var capped := if d < MaxDelay then d else MaxDelay;
    if 0.0 < capped then capped else 0.0
  }

  /** Clamping twice is clamping once, and clamping keeps order. */
  lemma ClampProperties(d: real, e: real)
    ensures ClampDelay(ClampDelay(d)) == ClampDelay(d)
    ensures d <= e ==> ClampDelay(d) <= ClampDelay(e)
  {
  }

  datatype DelayCategory = NoDelay | MinorDelay | ModerateDelay | SevereDelay
  datatype RiskLevel = Low | Moderate | Elevated | High

  datatype DelayBand = DelayBand(category: DelayCategory, level: RiskLevel)

  function CategoryRank(c: DelayCategory): nat {
    match c
    case NoDelay => 0
    case MinorDelay => 1
    case ModerateDelay => 2
    case SevereDelay => 3
  }

  function LevelRank(l: RiskLevel): nat {
    match l
    case Low => 0
    case Moderate => 1
    case Elevated => 2
    case High => 3
  }

  /** Category and risk level of a predicted delay in minutes. */
  function Band(d: real): (b: DelayBand)
    ensures CategoryRank(b.category) == LevelRank(b.level)
    ensures b.category == NoDelay <==> d < 15.0
    ensures b.category == MinorDelay <==> 15.0 <= d < 30.0
    ensures b.category == ModerateDelay <==> 30.0 <= d < 60.0
    ensures b.category == SevereDelay <==> 60.0 <= d
  {
    if d < 15.0 then DelayBand(NoDelay, Low)
    else if d < 30.0 then DelayBand(MinorDelay, Moderate)
    else if d < 60.0 then DelayBand(ModerateDelay, Elevated)
    else DelayBand(SevereDelay, High)
  }

  /** A longer delay never lands in a lower band. */
  lemma BandMonotone(d: real, e: real)
    requires d <= e
    ensures CategoryRank(Band(d).category) <= CategoryRank(Band(e).category)
    ensures LevelRank(Band(d).level) <= LevelRank(Band(e).level)
  {
  }

  /** `min(100, int(delay / 180 * 100))`. */
  function RiskPercentage(d: real): (r: int)
    ensures r <= 100
    ensures 0.0 <= d ==> 0 <= r
    ensures 0.0 <= d <= MaxDelay ==> r as real <= d / MaxDelay * 100.0 < r as real + 1.0
  {
    var t := Trunc((d / MaxDelay) * 100.0);
    if t < 100 then t else 100
  }

  /** The percentage grows with the delay, and a clamped delay gives 0..100. */
  lemma RiskPercentageProperties(d: real, e: real)
    ensures 0 <= RiskPercentage(ClampDelay(d)) <= 100
    ensures d <= e ==> RiskPercentage(d) <= RiskPercentage(e)
  {
    if d <= e {
      TruncMonotone((d / MaxDelay) * 100.0, (e / MaxDelay) * 100.0);
    }
  }

  /** What the weather prediction stores for the operational index. */
  datatype WeatherResult = WeatherResult(delayMinutes: real, riskPercentage: int)

  function StoreResult(d: real): (r: WeatherResult)
    ensures r.delayMinutes == d
    ensures r.riskPercentage == RiskPercentage(d)
    ensures 0.0 <= d <= MaxDelay ==> 0 <= r.riskPercentage <= 100
  {
    WeatherResult(d, RiskPercentage(d))
  }
}
