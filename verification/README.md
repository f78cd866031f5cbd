# Crew schedule optimiser and risk bands: a Dafny model

This project models the core of AeroShed-AI's crew scheduling page and the
pure rules of its risk-prediction page.

**Scheduling core (`optimize_schedule` in `screen2.py`).** Each flight has a
start, a duration and a priority. The function assigns every flight to one
crew, under four constraints:

- every flight gets exactly one crew;
- each crew's duty hours are capped;
- each crew's flight count is capped;
- two flights on the same crew must be separated by a rest buffer.

It then extracts the schedule rows, per-crew hours, total hours and a
violation count. The source hands the search to OR-Tools CP-SAT. Here a
deterministic backtracking search takes its place. It is proved sound against
the same constraints: whatever it returns is a valid schedule. It is also
proved complete when no flight has a negative duration: it then finds a
schedule whenever one exists. The objective is proved to be the same
number for every schedule that covers each flight once. So "optimal" and
"feasible" coincide, and the search's first valid schedule is reported as
OPTIMAL.

**Risk page (`pages/1_Risk_Predictions.py`).** The model covers:

- the clamp on the predicted delay;
- the delay band and the delay's risk percentage;
- the crew-sickness level;
- the equipment and emergency action ladders;
- the list of missing predictions;
- the weighted operational index and its level;
- the ranking of risk factors;
- the count of available predictions.

All times are integers in centi-hours (hundredths of an hour). The solver
compares `int(duration * 100)` against `int(max_duty * 100)`, and the re-check
compares the raw floats. The data uses half-hour starts and durations and
quarter-hour rest steps, so every value is exact at this scale and the two
comparisons agree.

Modules (one file each):

- `Wrappers`: Option.
- `Sorting`: stable insertion sort, with its stability proved.
- `Flights`.
- `Constraints`: the decision matrix and the assignment view.
- `Search`.
- `Extraction`.
- `Metrics`.
- `Truncation`: Python's `int()` on a float.
- `WeatherRisk`.
- `CrewRisk`.
- `RiskActions`.
- `OperationalRisk`.

## Behaviour of `optimize_schedule` worth knowing

The model keeps these facts about the code as they are:

- **Objective weights.** The weights 10 and 5 are constants in the code
  (screen2.py:190, 195); no parameter changes them.
- **Objective and spreading.** The comment at screen2.py:186 speaks of a
  balanced distribution, but the per-crew term `10 * crew_flights` does not
  favour spreading flights over crews. Summed over crews it is always
  `10 * |flights|` (`Constraints.ObjectiveOfCoverage`). So putting both
  flights on one crew scores the same as splitting them.
- **Priority.** A larger priority number earns a larger bonus.
- **Status.** Every solver status other than OPTIMAL or FEASIBLE is reported
  as INFEASIBLE (screen2.py:207). A solve that hits the time limit without an
  answer is therefore reported as INFEASIBLE too.
- **Input validation.** Nothing is checked before solving: negative
  durations, an empty crew list and a zero duty cap all reach the solver.

## Model

| member | source | states |
|---|---|---|
| `Flights.Conflict` | screen2.py:175-179 | two flights clash unless one ends, plus the rest buffer, no later than the other starts; `ConflictSymmetric`, `SeparatedNeverConflict` and `OverlapConflicts` state its properties |
| `Flights.ConflictSymmetric` | screen2.py:175-179 | the rest-buffer conflict test gives the same answer whichever flight is named first, so testing only pairs f1 < f2 covers all pairs |
| `Flights.SeparatedNeverConflict` | screen2.py:175-179 | a flight starting at least `min_rest` after another ends conflicts with it in neither order |
| `Flights.OverlapConflicts` | screen2.py:168-181 | with a non-negative rest buffer, flights whose intervals overlap always conflict |
| `Constraints.Valid` | screen2.py:150-181 | the assignment view of the four constraint families: every flight gets an existing crew, and no crew exceeds the duty cap or the flight cap or flies two clashing flights; `FeasibleIffValid` ties it to the matrix constraints |
| `Constraints.Feasible` | screen2.py:150-181 | the four constraint families on the decision matrix, as the solver states them; `FeasibleMatrixIffValid` ties it to `Valid` |
| `Constraints.Objective` | screen2.py:184-197 | the maximised sum: 10 per assigned flight per crew plus 5·priority per assigned flight; `ObjectiveOfCoverage` gives its value on every covering matrix |
| `Constraints.AssignmentRoundTrip` | screen2.py:144-152 | the decision matrix of an assignment to existing crews meets the exactly-one coverage constraint, and reading the crew back from each row returns the assignment |
| `Constraints.DecisionsRoundTrip` | screen2.py:144-152 | every matrix meeting coverage is the matrix of the assignment read from it, and that assignment names existing crews |
| `Constraints.FeasibleIffValid` | screen2.py:150-181 | an assignment's matrix meets the coverage, duty, count and rest constraints exactly when the assignment itself is valid |
| `Constraints.FeasibleMatrixIffValid` | screen2.py:150-181 | a well-shaped decision matrix is feasible exactly when it meets coverage and the assignment read from it is valid |
| `Constraints.ObjectiveOfCoverage` | screen2.py:184-197 | every matrix that covers each flight exactly once scores `10·|flights| + 5·Σ priority` |
| `Constraints.ValidIsOptimal` | screen2.py:184-202 | a valid assignment's matrix is feasible and scores exactly what every feasible matrix scores, so any feasible answer is optimal |
| `Search.Extend` | screen2.py:150-202 | a found completion of a partially valid prefix is a valid assignment of all flights that extends the prefix |
| `Search.TryCrews` | screen2.py:150-202 | trying crews from `c` upwards only returns a valid extension whose next flight goes to a crew numbered `c` or above |
| `Search.Solve` | screen2.py:199-202 | the solve returns an assignment only if it is valid |
| `Search.SolveComplete` | screen2.py:199-214 | with non-negative durations, the solve finds an assignment whenever a valid one exists |
| `Search.SolveNoneIffInfeasible` | screen2.py:199-214 | with non-negative durations, the solve returns nothing exactly when no valid assignment exists |
| `Search.ValidNeedsCapacity` | screen2.py:150-166 | a valid assignment has at most `|crews| · max_flights` flights |
| `Search.CapacityShortSolveNone` | screen2.py:150-166 | when `|crews| · max_flights < |flights|` the solve finds nothing |
| `Extraction.ReportedStatus` | screen2.py:207 | OPTIMAL and FEASIBLE keep their names, and every other solver status is reported as INFEASIBLE |
| `Extraction.CoverageRows` | screen2.py:214-225 | for a covering matrix the extraction emits exactly one row per flight, in flight order, naming the crew the matrix picks |
| `Extraction.Bump` | screen2.py:227-230 | adding a row's hours to the table adds them to that crew's entry only and to the table's sum; a new crew is appended at the end and keys stay distinct |
| `Extraction.Utilization` | screen2.py:227-233 | the utilisation table has one entry per crew that has rows, and no entry for any other crew; each entry is the sum of that crew's row durations; the values sum to the total of all rows |
| `Extraction.Violations` | screen2.py:235-239 | the count never exceeds the length of the crew list; `ViolationsCountOverDutyCrews` identifies what it counts |
| `Extraction.ViolationsCountOverDutyCrews` | screen2.py:235-239 | the violation count equals the number of crew-list entries that have rows and whose row hours exceed the duty cap |
| `Extraction.ExtractSolution` | screen2.py:204-241 | a non-OPTIMAL/FEASIBLE status gives INFEASIBLE with no rows and zero statistics; otherwise the status passes through and total hours are the rows' total |
| `Extraction.ExtractFeasible` | screen2.py:214-239 | from any feasible solver answer (distinct crew names): rows are one per flight in order; each crew's hours equal its load; total hours equal the sum of all durations; violations are 0 |
| `Extraction.OptimizeSchedule` | screen2.py:138-241 | the status is OPTIMAL or INFEASIBLE, and INFEASIBLE comes with no rows and zero statistics |
| `Extraction.OptimizeScheduleSound` | screen2.py:138-241 | an OPTIMAL report lists the rows of a valid assignment; total hours equal all durations; with distinct crew names, violations are 0 and each crew's hours equal its load |
| `Extraction.OptimizeScheduleOptimal` | screen2.py:184-202 | the reported assignment's objective equals that of every feasible decision matrix |
| `Extraction.OptimizeScheduleInfeasible` | screen2.py:205-241 | with non-negative durations, the report is INFEASIBLE exactly when no valid assignment exists |
| `Extraction.CapacityShortReport` | screen2.py:205-214 | with fewer crew slots than flights the report is INFEASIBLE, with an empty solution and zero statistics |
| `Metrics.AvgUtilization` | screen2.py:356 | average utilisation times the crew-hour pool is 100 times the total, and it lies in 0..100 when the total lies within the pool |
| `Metrics.ValidWithinDutyPool` | screen2.py:155-160 | a valid assignment needs at most `|crews| · max_duty` hours in total |
| `Metrics.OptimalAvgUtilizationBounded` | screen2.py:356 | with non-negative durations, at least one crew and a positive duty cap, an OPTIMAL report's average utilisation lies in 0..100 percent |
| `Metrics.CrewFlights` | screen2.py:429-434 | a crew's group holds exactly that crew's rows with their multiplicities, and its hours are the crew's row hours |
| `Metrics.CrewFlightsIsFilter` | screen2.py:429-434 | a crew's group is exactly the solution rows that name the crew, kept in solution order |
| `Metrics.CrewFlightsAppend` | screen2.py:429-434 | the group keeps solution order: grouping a concatenation gives the concatenation of the groups |
| `Metrics.CrewFlightsSingle` | screen2.py:429-434 | one row joins a crew's group exactly when it names that crew |
| `Metrics.SortedCrews` | screen2.py:437 | the card crews are the distinct crews with rows, in lexicographic name order |
| `Metrics.CrewCard` | screen2.py:446-469 | a card lists the crew's own rows, ordered by start time and none lost or added; its flight count is the length of its list and its hours equal the crew's utilisation entry |
| `Metrics.CrewCardStable` | screen2.py:469 | flights with the same start time appear on the card in solution order, as Python's stable sort leaves them |
| `Metrics.CardCountsFlights` | screen2.py:446-448 | in an OPTIMAL report with distinct crew names, a card's flight count is the crew's assigned count, so it is at most `max_flights` |
| `Metrics.UnassignedCrews` | screen2.py:484 | the unassigned list holds exactly the crew-list entries that have no rows, with their multiplicities |
| `Metrics.UnassignedCrewsIsFilter` | screen2.py:484 | the unassigned list is exactly the crew-list entries with no rows, kept in crew-list order |
| `Metrics.UnassignedCrewsAppend` | screen2.py:484 | the list keeps crew-list order: the list for a concatenation is the concatenation of the lists |
| `Metrics.UnassignedCrewsSingle` | screen2.py:484 | a single crew is listed exactly when it has no rows |
| `Metrics.UtilizationData` | screen2.py:535-543 | one line per crew in crew-list order: hours are the table entry (0 if absent), hours plus available equal the cap, and utilisation is hours over cap in percent |
| `Metrics.UtilizationDataWithinCap` | screen2.py:535-543 | hours within 0..cap give utilisation in 0..100 and non-negative available hours |
| `Metrics.OptimalUtilizationWithinCap` | screen2.py:535-543 | in an OPTIMAL report (distinct crews, non-negative durations) every crew's utilisation is in 0..100 and its available hours are non-negative |
| `Truncation.Trunc` | pages/1_Risk_Predictions.py:481 | `int()` truncates toward zero: the result is the integer part of its argument, on either side of zero |
| `WeatherRisk.ClampDelay` | pages/1_Risk_Predictions.py:454 | the clamped delay lies in 0..180; values inside are unchanged; values below become 0; values above become 180 |
| `WeatherRisk.ClampProperties` | pages/1_Risk_Predictions.py:454 | clamping is idempotent and monotone |
| `WeatherRisk.Band` | pages/1_Risk_Predictions.py:465-476 | the bands partition all delays at 15/30/60, and category and risk level move in lockstep |
| `WeatherRisk.BandMonotone` | pages/1_Risk_Predictions.py:465-476 | a longer delay never gets a lower category or risk level |
| `WeatherRisk.RiskPercentage` | pages/1_Risk_Predictions.py:481 | the percentage is at most 100 and non-negative for non-negative delays; within 0..180 it is the integer part of delay/180·100 |
| `WeatherRisk.RiskPercentageProperties` | pages/1_Risk_Predictions.py:454-481 | the percentage of a clamped delay lies in 0..100, and the percentage is monotone in the delay |
| `WeatherRisk.StoreResult` | pages/1_Risk_Predictions.py:479-482 | the stored weather result keeps the delay and stores the delay's risk percentage, which is in 0..100 for delays in 0..180 |
| `CrewRisk.CrewLevelOf` | pages/1_Risk_Predictions.py:539 | the crew level partitions probabilities at ≤40 / ≤70 / above |
| `CrewRisk.CrewLevelMonotone` | pages/1_Risk_Predictions.py:539 | a higher probability never gives a lower crew level |
| `RiskActions.EquipmentActionOf` | pages/1_Risk_Predictions.py:580-587 | the action's rank is the number of cut points 25, 50, 75 the failure probability has reached |
| `RiskActions.EmergencyActionOf` | pages/1_Risk_Predictions.py:666-673 | the action's rank is the number of cut points 25, 50, 75 the emergency probability has reached |
| `RiskActions.ActionsMonotone` | pages/1_Risk_Predictions.py:580-587 | both action ladders are monotone in the probability |
| `RiskActions.ActionsAgree` | pages/1_Risk_Predictions.py:666-673 | the equipment and emergency ladders give the same rank for the same probability |
| `OperationalRisk.MissingPredictions` | pages/1_Risk_Predictions.py:750-758 | the list holds exactly the missing predictions, each once, in the order weather, crew, equipment, emergency |
| `OperationalRisk.AvailableCount` | pages/1_Risk_Predictions.py:889-890 | the number of stored predictions, at most 4 |
| `OperationalRisk.AvailablePlusMissing` | pages/1_Risk_Predictions.py:889-890 | the available count plus the number of missing predictions is 4 |
| `OperationalRisk.WeightedRisk` | pages/1_Risk_Predictions.py:786-796 | the weighted sum with weights 0.25, 0.20, 0.30, 0.20 and 0.05 on a traffic density of 50; `WeightedRiskBounds` and `WeightedRiskMonotone` state its properties |
| `OperationalRisk.WeightedRiskBounds` | pages/1_Risk_Predictions.py:790-796 | with component percentages in 0..100 the weighted risk lies in 2.5..97.5, and its integer part in 2..97 |
| `OperationalRisk.WeightedRiskMonotone` | pages/1_Risk_Predictions.py:790-796 | raising any component never lowers the weighted risk or the index |
| `OperationalRisk.OperationalIndex` | pages/1_Risk_Predictions.py:760-796 | the index exists exactly when no prediction is missing (all four available), and it is then the truncated weighted sum |
| `OperationalRisk.OperationalIndexBounds` | pages/1_Risk_Predictions.py:783-796 | with all four stored percentages in 0..100 the index lies in 2..97 |
| `OperationalRisk.OperationalLevelOf` | pages/1_Risk_Predictions.py:798 | STABLE exactly up to 40, CRITICAL exactly above 70 |
| `OperationalRisk.OperationalLevelProperties` | pages/1_Risk_Predictions.py:798 | the operational level is monotone and has the same rank as the crew level for every score (shared cut points) |
| `OperationalRisk.RankByValue` | pages/1_Risk_Predictions.py:858 | any factor list is ranked as a permutation of itself, sorted non-increasing by value |
| `OperationalRisk.RankByValueStable` | pages/1_Risk_Predictions.py:858 | factors with equal values keep their listed order, as Python's stable sort keeps them |
| `OperationalRisk.RankedFactors` | pages/1_Risk_Predictions.py:851-858 | the ranking is a permutation of the five factors, sorted non-increasing by value |
| `OperationalRisk.RankedFactorsArePermutation` | pages/1_Risk_Predictions.py:851-858 | every one of the five factors appears in the ranking |

## Left out

- The CP-SAT solver, its 10-second time limit and `WallTime` (screen2.py:200-208) are foreign code and wall-clock behaviour. The backtracking search replaces them and reports OPTIMAL or INFEASIBLE, never FEASIBLE: every valid answer is optimal. `solve_time` is not part of the statistics.
- Durations that are not whole centi-hours are left out, and so is the truncation of `int(duration * 100)` on them. The source's data and input steps are all exact at that scale.
- `Search.SolveComplete`, `Search.SolveNoneIffInfeasible` and `Extraction.OptimizeScheduleInfeasible` assume non-negative durations. The search prunes on the duty cap as it goes, which is only complete when load never shrinks; the source itself does not check durations.
- `Extraction.ExtractFeasible` and `Extraction.OptimizeScheduleSound` claim zero violations only for distinct crew names. The re-check adds hours per crew name, while the solver's cap is per crew index. The source's crew list is distinct.
- `Metrics.OptimalAvgUtilizationBounded` and `Metrics.OptimalUtilizationWithinCap` assume the metrics use the duty cap the shown schedule was solved with. The page keeps the last solve in Streamlit session state (screen2.py:135, 322). It computes the metrics against the live `max_duty_input` (screen2.py:253, 356, 537, 542). If that input is lowered without solving again, the page can show a crew above 100% with negative available hours. Session state and reruns are not modelled.
- `Metrics.AvgUtilization` and `Metrics.UtilizationData` require a positive duty cap and, for the average, at least one crew. The page's inputs guarantee both (screen2.py:101, 253); the source would divide by zero otherwise.
- CSS, Plotly charts, pandas tables, time-of-day text formatting, table search and filtering (screen2.py:9-94, 243-591 apart from the metric expressions) are rendering only.
- `main.py`, `flashscreen.py`, `app.py` and `test_phi3.py` are not part of this model: they hold page layout and the Phi-3 HTTP calls.
- ML model loading and prediction (pages/1_Risk_Predictions.py:88-164 and the `predict`/`predict_proba` calls) are opaque trained artifacts. Their outputs are inputs to the banding functions here.
- The rule-based fallback formulas and their risk-level labels (pages/1_Risk_Predictions.py:459, 462, 533, 536, 593-594, 679-697) are float formulas on UI inputs and are left out. So are the impact-percentage bars (496-506, 624-634, 727-741), the stress score and the factor colour dots (862).
- The equipment branch's control flow at pages/1_Risk_Predictions.py:591-597 is left out: the lines after its `try` overwrite the model's outputs. Only its threshold rule, shared with 580-587, is modelled.
- `OperationalRisk.WeightedRiskBounds`, `OperationalRisk.OperationalIndex`, `WeatherRisk.RiskPercentage` and `WeatherRisk.StoreResult` use exact real arithmetic in place of doubles. Before truncation, a double can land a hair above or below the exact value. For example, the double nearest a 16.2-minute delay gives `(d / 180) * 100` rounded to 9.0, and `int` gives 9. The exact value is just under 9, so the model gives 8. The truncated index or percentage can therefore differ by one.
- `Metrics.AvgUtilization` and `Metrics.UtilizationData` divide exact reals where the page divides doubles. Nothing is truncated there, so the results differ only by rounding.
- The Phi-3 copilot, its prompt and the question flow are network I/O (pages/1_Risk_Predictions.py:41-86, 883-888, 891-973).
