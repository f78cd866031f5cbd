/**
 Flights and the scheduling parameters of the crew optimiser.

 All times are integers in centi-hours (hundredths of an hour): the solver
 multiplies durations and the duty cap by 100 before comparing them, and the
 page's data (half-hour starts and durations, quarter-hour rest steps) is
 exact at that scale, so the solver's integers and the float re-check agree.
 */
module Flights {

  /** One flight: start and duration in centi-hours; priority is used directly as a weight. */
  datatype Flight = Flight(id: string, start: int, duration: int, priority: int)

  /** The three knobs of `optimize_schedule`: duty cap (centi-hours), rest buffer (centi-hours), flight cap. */
  datatype Params = Params(maxDuty: int, minRest: int, maxFlights: int)

  function End(f: Flight): int {
    f.start + f.duration
  }

  /**
   Two flights conflict when neither one ends, plus the rest buffer, before the
   other starts; conflicting flights may not share a crew.
   */
  predicate Conflict(f1: Flight, f2: Flight, minRest: int) {
    !(End(f1) + minRest <= f2.start || End(f2) + minRest <= f1.start)
  }

  /** The conflict relation does not depend on which flight is named first. */
  lemma ConflictSymmetric(f1: Flight, f2: Flight, minRest: int)
    ensures Conflict(f1, f2, minRest) <==> Conflict(f2, f1, minRest)
  {
  }

  /** A flight that starts at least `minRest` after the other one ends never conflicts with it. */
  lemma SeparatedNeverConflict(f1: Flight, f2: Flight, minRest: int)
    requires End(f1) + minRest <= f2.start
    ensures !Conflict(f1, f2, minRest)
    ensures !Conflict(f2, f1, minRest)
  {
  }

  /** With a non-negative buffer, flights whose time intervals overlap always conflict. */
  lemma OverlapConflicts(f1: Flight, f2: Flight, minRest: int)
    requires minRest >= 0
    requires f1.start < End(f2) && f2.start < End(f1)
    ensures Conflict(f1, f2, minRest)
  {
  }

  /** Sum of all flight durations. */
  function TotalDuration(fs: seq<Flight>): int {
    if |fs| == 0 then 0 else TotalDuration(fs[..|fs| - 1]) + fs[|fs| - 1].duration
  }

  /** Sum of all flight priorities. */
  function TotalPriority(fs: seq<Flight>): int {
    if |fs| == 0 then 0 else TotalPriority(fs[..|fs| - 1]) + fs[|fs| - 1].priority
  }

  predicate NonNegativeDurations(fs: seq<Flight>) {
    forall f :: 0 <= f < |fs| ==> fs[f].duration >= 0
  }
}
