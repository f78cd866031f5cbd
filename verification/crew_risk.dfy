/** The crew-sickness level of a probability percentage. */
module CrewRisk {

  datatype CrewLevel = Normal | Elevated | Critical

  function CrewLevelRank(l: CrewLevel): nat {
    match l
    case Normal => 0
    case Elevated => 1
    case Critical => 2
  }

  function CrewLevelOf(probability: int): (l: CrewLevel)
    ensures l == Normal <==> probability <= 40
    ensures l == Elevated <==> 40 < probability <= 70
    ensures l == Critical <==> 70 < probability
  {
    if probability <= 40 then Normal else if probability <= 70 then Elevated else Critical
  }

  /** A higher probability never gives a lower level. */
  lemma CrewLevelMonotone(p: int, q: int)
    requires p <= q
    ensures CrewLevelRank(CrewLevelOf(p)) <= CrewLevelRank(CrewLevelOf(q))
  {
  }

  /** What the crew prediction stores for the operational index. */
  datatype CrewResult = CrewResult(probability: int)
}
