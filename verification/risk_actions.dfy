/**
 The recommended actions of the equipment-failure and emergency-landing
 predictions: both cut a probability percentage at 25, 50 and 75.
 */
module RiskActions {

  datatype EquipmentAction = Continue | Monitor | ScheduleMaintenance | ImmediateMaintenance

  datatype EmergencyAction =
    | ContinueNormalOperations
    | IncreaseMonitoring
    | PrepareDiversionPlan
    | InitiateEmergencyProcedures

  function EquipmentRank(a: EquipmentAction): nat {
    match a
    case Continue => 0
    case Monitor => 1
    case ScheduleMaintenance => 2
    case ImmediateMaintenance => 3
  }

  function EmergencyRank(a: EmergencyAction): nat {
    match a
    case ContinueNormalOperations => 0
    case IncreaseMonitoring => 1
    case PrepareDiversionPlan => 2
    case InitiateEmergencyProcedures => 3
  }

  /** Number of the cut points 25, 50, 75 that `p` has reached. */
  function CutsReached(p: real): (n: nat)
    ensures n <= 3
    ensures n >= 1 <==> p >= 25.0
    ensures n >= 2 <==> p >= 50.0
    ensures n >= 3 <==> p >= 75.0
  {
    (if p >= 25.0 then 1 else 0) + (if p >= 50.0 then 1 else 0) + (if p >= 75.0 then 1 else 0)
  }

  function EquipmentActionOf(failureProbability: real): (a: EquipmentAction)
    ensures EquipmentRank(a) == CutsReached(failureProbability)
  {
    if failureProbability < 25.0 then Continue
    else if failureProbability < 50.0 then Monitor
    else if failureProbability < 75.0 then ScheduleMaintenance
    else ImmediateMaintenance
  }

  function EmergencyActionOf(emergencyProbability: real): (a: EmergencyAction)
    ensures EmergencyRank(a) == CutsReached(emergencyProbability)
  {
    if emergencyProbability < 25.0 then ContinueNormalOperations
    else if emergencyProbability < 50.0 then IncreaseMonitoring
    else if emergencyProbability < 75.0 then PrepareDiversionPlan
    else InitiateEmergencyProcedures
  }

  /** Both action ladders are ordered: a higher probability never asks for less. */
  lemma ActionsMonotone(p: real, q: real)
    requires p <= q
    ensures EquipmentRank(EquipmentActionOf(p)) <= EquipmentRank(EquipmentActionOf(q))
    ensures EmergencyRank(EmergencyActionOf(p)) <= EmergencyRank(EmergencyActionOf(q))
  {
  }

  /** The two ladders share their cut points: the same probability gives actions of the same rank. */
  lemma ActionsAgree(p: real)
    ensures EquipmentRank(EquipmentActionOf(p)) == EmergencyRank(EmergencyActionOf(p))
  {
  }

  datatype EquipmentResult = EquipmentResult(failureProbability: real)
  datatype EmergencyResult = EmergencyResult(emergencyProbability: real)
}
