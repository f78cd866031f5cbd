/**
 The constraint model of `optimize_schedule`, in two views:

 - the program's own view, a boolean decision matrix `x[f][c]` ("flight f is
   flown by crew c") with the coverage, duty, count and rest constraints and
   the objective stated over it;
 - the assignment view, one crew index per flight, which is what the
   backtracking search builds.

 The lemmas at the end show that the two views describe the same schedules
 and that the objective is the same for every schedule that covers each
 flight exactly once.
 */
module Constraints {
  import opened Flights

  /** Crew index per flight; a prefix `a` assigns the first `|a|` flights. */
  type Assignment = seq<nat>

  // ---------------------------------------------------------------- assignment view

  /** Centi-hours flown by crew `c` among the flights `a` assigns. */
  function Load(fs: seq<Flight>, a: Assignment, c: nat): int
    requires |a| <= |fs|
  {
    if |a| == 0 then 0
    else Load(fs, a[..|a| - 1], c) + (if a[|a| - 1] == c then fs[|a| - 1].duration else 0)
  }

  /** Number of flights `a` gives to crew `c`. */
  function Count(a: Assignment, c: nat): nat {
    if |a| == 0 then 0
    else Count(a[..|a| - 1], c) + (if a[|a| - 1] == c then 1 else 0)
  }

  /**
   The first `|a|` flights are assigned to crews that exist, and no crew
   breaks the duty cap, the flight cap or the rest rule among them.
   */
  predicate PartialValid(fs: seq<Flight>, a: Assignment, nC: nat, p: Params) {
    && |a| <= |fs|
    && (forall f :: 0 <= f < |a| ==> a[f] < nC)
    && (forall c :: 0 <= c < nC ==> Load(fs, a, c) <= p.maxDuty && Count(a, c) <= p.maxFlights)
    && (forall i, j :: 0 <= i < j < |a| && a[i] == a[j] ==> !Conflict(fs[i], fs[j], p.minRest))
  }

  /** A complete assignment meeting every constraint. */
  predicate Valid(fs: seq<Flight>, a: Assignment, nC: nat, p: Params) {
    |a| == |fs| && PartialValid(fs, a, nC, p)
  }

  // ---------------------------------------------------------------- decision-matrix view

  type Decisions = seq<seq<bool>>

  /** One row per flight, one column per crew. */
  predicate WellShaped(x: Decisions, nF: nat, nC: nat) {
    |x| == nF && forall f :: 0 <= f < |x| ==> |x[f]| == nC
  }

  function CountTrue(row: seq<bool>): nat {
    if |row| == 0 then 0
    else CountTrue(row[..|row| - 1]) + (if row[|row| - 1] then 1 else 0)
  }

  /** Every flight is given to exactly one crew. */
  predicate Coverage(x: Decisions) {
    forall f :: 0 <= f < |x| ==> CountTrue(x[f]) == 1
  }

  /** Centi-hours of crew column `c`. */
  function MatrixLoad(fs: seq<Flight>, x: Decisions, c: nat): int
    requires |x| <= |fs|
    requires forall f :: 0 <= f < |x| ==> c < |x[f]|
  {
    if |x| == 0 then 0
    else MatrixLoad(fs, x[..|x| - 1], c) + (if x[|x| - 1][c] then fs[|x| - 1].duration else 0)
  }

  /** Number of flights in crew column `c`. */
  function MatrixCount(x: Decisions, c: nat): nat
    requires forall f :: 0 <= f < |x| ==> c < |x[f]|
  {
    if |x| == 0 then 0
    else MatrixCount(x[..|x| - 1], c) + (if x[|x| - 1][c] then 1 else 0)
  }

  /** The four constraint families of the CP-SAT model. */
  predicate Feasible(fs: seq<Flight>, x: Decisions, nC: nat, p: Params) {
    && WellShaped(x, |fs|, nC)
    && Coverage(x)
    && (forall c :: 0 <= c < nC ==> MatrixLoad(fs, x, c) <= p.maxDuty && MatrixCount(x, c) <= p.maxFlights)
    && (forall c, i, j :: 0 <= c < nC && 0 <= i < j < |x| && x[i][c] && x[j][c] ==>
          !Conflict(fs[i], fs[j], p.minRest))
  }

  // ---------------------------------------------------------------- objective

  const CrewWeight := 10
  const PriorityWeight := 5

  /** Sum over the first `n` crews of `CrewWeight` times that crew's flight count. */
  function UtilizationTerm(x: Decisions, n: nat): int
    requires forall f :: 0 <= f < |x| ==> n <= |x[f]|
  {
    if n == 0 then 0 else UtilizationTerm(x, n - 1) + CrewWeight * MatrixCount(x, n - 1)
  }

  /** Sum over one flight's row of `bonus` for each crew that flies it. */
  function RowBonus(row: seq<bool>, bonus: int): int {
    if |row| == 0 then 0
    else RowBonus(row[..|row| - 1], bonus) + (if row[|row| - 1] then bonus else 0)
  }

  /** Sum over all (flight, crew) pairs of `priority * PriorityWeight` where the decision is true. */
  function PriorityTerm(fs: seq<Flight>, x: Decisions): int
    requires |x| <= |fs|
  {
    if |x| == 0 then 0
    else PriorityTerm(fs, x[..|x| - 1]) + RowBonus(x[|x| - 1], fs[|x| - 1].priority * PriorityWeight)
  }

  /** The maximised objective. */
  function Objective(fs: seq<Flight>, x: Decisions, nC: nat): int
    requires WellShaped(x, |fs|, nC)
  {
    UtilizationTerm(x, nC) + PriorityTerm(fs, x)
  }

  // ---------------------------------------------------------------- between the views

  function ToDecisions(a: Assignment, nC: nat): (x: Decisions)
    ensures WellShaped(x, |a|, nC)
    ensures forall f, c :: 0 <= f < |a| && 0 <= c < nC ==> (x[f][c] <==> a[f] == c)
  {
    seq(|a|, f requires 0 <= f < |a| => seq(nC, c => a[f] == c))
  }

  /** Index of the first true entry, or `|row|` when there is none. */
  function FirstTrue(row: seq<bool>): (k: nat)
    ensures k <= |row|
    ensures k < |row| ==> row[k]
    ensures forall c :: 0 <= c < k ==> !row[c]
  {
    if |row| == 0 then 0
    else
      var k := FirstTrue(row[..|row| - 1]);
      if k < |row| - 1 then k
      else if row[|row| - 1] then |row| - 1
      else |row|
  }

  function FromDecisions(x: Decisions): (a: Assignment)
    ensures |a| == |x|
  {
    seq(|x|, f requires 0 <= f < |x| => FirstTrue(x[f]))
  }

  /** A row with exactly one true entry is the indicator row of its first true entry. */
  lemma {:induction false} OneTrueRow(row: seq<bool>)
    requires CountTrue(row) == 1
    ensures FirstTrue(row) < |row|
    ensures forall c :: 0 <= c < |row| ==> (row[c] <==> c == FirstTrue(row))
  {
    var n := |row|;
    var init := row[..n - 1];
    if row[n - 1] {
      NoTrueRow(init);
      assert FirstTrue(init) == n - 1;
    } else {
      OneTrueRow(init);
    }
  }

  lemma {:induction false} NoTrueRow(row: seq<bool>)
    requires CountTrue(row) == 0
    ensures forall c :: 0 <= c < |row| ==> !row[c]
  {
    if |row| > 0 {
      NoTrueRow(row[..|row| - 1]);
    }
  }

  /** The indicator row of crew `k` among `n` crews holds one true entry exactly when `k < n`. */
  lemma {:induction false} IndicatorCount(n: nat, k: nat)
    ensures CountTrue(seq(n, c => c == k)) == (if k < n then 1 else 0)
  {
    if n > 0 {
      IndicatorCount(n - 1, k);
      assert seq(n, c => c == k)[..n - 1] == seq(n - 1, c => c == k);
    }
  }

  /** An assignment to existing crews gives a covering matrix, and reading it back returns the assignment. */
  lemma AssignmentRoundTrip(a: Assignment, nC: nat)
    requires forall f :: 0 <= f < |a| ==> a[f] < nC
    ensures Coverage(ToDecisions(a, nC))
    ensures FromDecisions(ToDecisions(a, nC)) == a
  {
    var x := ToDecisions(a, nC);
    forall f | 0 <= f < |a|
      ensures CountTrue(x[f]) == 1 && FirstTrue(x[f]) == a[f]
    {
      assert x[f] == seq(nC, c => c == a[f]);
      IndicatorCount(nC, a[f]);
      OneTrueRow(x[f]);
    }
  }

  /** A covering matrix is the matrix of the assignment read from it. */
  lemma DecisionsRoundTrip(x: Decisions, nF: nat, nC: nat)
    requires WellShaped(x, nF, nC)
    requires Coverage(x)
    ensures forall f :: 0 <= f < nF ==> FromDecisions(x)[f] < nC
    ensures ToDecisions(FromDecisions(x), nC) == x
  {
    var a := FromDecisions(x);
    forall f | 0 <= f < nF
      ensures a[f] < nC && ToDecisions(a, nC)[f] == x[f]
    {
      OneTrueRow(x[f]);
    }
  }

  /** Without an existing crew a flight's indicator row is empty of trues, so coverage fails. */
  lemma CoverageNeedsExistingCrews(a: Assignment, nC: nat)
    requires Coverage(ToDecisions(a, nC))
    ensures forall f :: 0 <= f < |a| ==> a[f] < nC
  {
    var x := ToDecisions(a, nC);
    forall f | 0 <= f < |a|
      ensures a[f] < nC
    {
      assert x[f] == seq(nC, c => c == a[f]);
      IndicatorCount(nC, a[f]);
    }
  }

  lemma {:induction false} LoadsAgree(fs: seq<Flight>, a: Assignment, nC: nat, c: nat)
    requires |a| <= |fs|
    requires c < nC
    ensures MatrixLoad(fs, ToDecisions(a, nC), c) == Load(fs, a, c)
    ensures MatrixCount(ToDecisions(a, nC), c) == Count(a, c)
  {
    if |a| > 0 {
      var n := |a|;
      assert ToDecisions(a, nC)[..n - 1] == ToDecisions(a[..n - 1], nC);
      LoadsAgree(fs, a[..n - 1], nC, c);
    }
  }

  /** The matrix of an assignment meets the CP-SAT constraints exactly when the assignment is valid. */
  lemma FeasibleIffValid(fs: seq<Flight>, a: Assignment, nC: nat, p: Params)
    requires |a| == |fs|
    ensures Feasible(fs, ToDecisions(a, nC), nC, p) <==> Valid(fs, a, nC, p)
  {
    var x := ToDecisions(a, nC);
    forall c | 0 <= c < nC
      ensures MatrixLoad(fs, x, c) == Load(fs, a, c) && MatrixCount(x, c) == Count(a, c)
    {
      LoadsAgree(fs, a, nC, c);
    }
    if Valid(fs, a, nC, p) {
      AssignmentRoundTrip(a, nC);
    }
    if Feasible(fs, x, nC, p) {
      CoverageNeedsExistingCrews(a, nC);
      forall i, j | 0 <= i < j < |a| && a[i] == a[j]
        ensures !Conflict(fs[i], fs[j], p.minRest)
      {
        assert x[i][a[i]] && x[j][a[i]];
      }
    }
  }

  /** A well-shaped matrix is feasible exactly when it covers every flight and the assignment read from it is valid. */
  lemma FeasibleMatrixIffValid(fs: seq<Flight>, x: Decisions, nC: nat, p: Params)
    requires WellShaped(x, |fs|, nC)
    ensures Feasible(fs, x, nC, p) <==> Coverage(x) && Valid(fs, FromDecisions(x), nC, p)
  {
    if Coverage(x) {
      DecisionsRoundTrip(x, |fs|, nC);
      FeasibleIffValid(fs, FromDecisions(x), nC, p);
    }
  }

  // ---------------------------------------------------------------- the objective is constant

  lemma {:induction false} RowBonusCount(row: seq<bool>, bonus: int)
    ensures RowBonus(row, bonus) == bonus * CountTrue(row)
  {
    if |row| > 0 {
      RowBonusCount(row[..|row| - 1], bonus);
    }
  }

  /** Sum of the first `n` entries' truth counts, row by row. */
  function RowsPrefixCount(x: Decisions, n: nat): nat
    requires forall f :: 0 <= f < |x| ==> n <= |x[f]|
  {
    if |x| == 0 then 0 else RowsPrefixCount(x[..|x| - 1], n) + CountTrue(x[|x| - 1][..n])
  }

  /** Adding one more flight row adds that row's trues among the first `n` crews. */
  lemma {:induction false} UtilizationStep(x: Decisions, n: nat)
    requires |x| > 0
    requires forall f :: 0 <= f < |x| ==> n <= |x[f]|
    ensures UtilizationTerm(x, n)
         == UtilizationTerm(x[..|x| - 1], n) + CrewWeight * CountTrue(x[|x| - 1][..n])
  {
    if n > 0 {
      UtilizationStep(x, n - 1);
      var row := x[|x| - 1];
      assert row[..n][..n - 1] == row[..n - 1];
    }
  }

  /** Summing counts column by column equals summing them row by row. */
  lemma {:induction false} UtilizationByRows(x: Decisions, n: nat)
    requires forall f :: 0 <= f < |x| ==> n <= |x[f]|
    ensures UtilizationTerm(x, n) == CrewWeight * RowsPrefixCount(x, n)
  {
    if |x| == 0 {
      UtilizationEmpty(x, n);
    } else {
      UtilizationStep(x, n);
      UtilizationByRows(x[..|x| - 1], n);
    }
  }

  lemma {:induction false} UtilizationEmpty(x: Decisions, n: nat)
    requires |x| == 0
    ensures UtilizationTerm(x, n) == 0
  {
    if n > 0 {
      UtilizationEmpty(x, n - 1);
    }
  }

  lemma {:induction false} CoveredRowsCount(x: Decisions, nC: nat)
    requires forall f :: 0 <= f < |x| ==> |x[f]| == nC
    requires Coverage(x)
    ensures RowsPrefixCount(x, nC) == |x|
  {
    if |x| > 0 {
      var row := x[|x| - 1];
      assert row[..nC] == row;
      CoveredRowsCount(x[..|x| - 1], nC);
    }
  }

  lemma {:induction false} CoveredPriority(fs: seq<Flight>, x: Decisions)
    requires |x| <= |fs|
    requires Coverage(x)
    ensures PriorityTerm(fs, x) == PriorityWeight * TotalPriority(fs[..|x|])
  {
    if |x| > 0 {
      var n := |x|;
      CoveredPriority(fs, x[..n - 1]);
      RowBonusCount(x[n - 1], fs[n - 1].priority * PriorityWeight);
      assert fs[..n][..n - 1] == fs[..n - 1];
    }
  }

  /**
   Every matrix that covers each flight exactly once scores
   `CrewWeight * |flights| + PriorityWeight * (sum of priorities)`, whichever
   crews it picks.
   */
  lemma ObjectiveOfCoverage(fs: seq<Flight>, x: Decisions, nC: nat)
    requires WellShaped(x, |fs|, nC)
    requires Coverage(x)
    ensures Objective(fs, x, nC) == CrewWeight * |fs| + PriorityWeight * TotalPriority(fs)
  {
    UtilizationByRows(x, nC);
    CoveredRowsCount(x, nC);
    CoveredPriority(fs, x);
    assert fs[..|x|] == fs;
  }

  /** Any valid assignment's matrix scores at least as well as every feasible matrix: feasible means optimal. */
  lemma ValidIsOptimal(fs: seq<Flight>, a: Assignment, x: Decisions, nC: nat, p: Params)
    requires Valid(fs, a, nC, p)
    requires Feasible(fs, x, nC, p)
    ensures Feasible(fs, ToDecisions(a, nC), nC, p)
    ensures Objective(fs, ToDecisions(a, nC), nC) == Objective(fs, x, nC)
  {
    FeasibleIffValid(fs, a, nC, p);
    ObjectiveOfCoverage(fs, ToDecisions(a, nC), nC);
    ObjectiveOfCoverage(fs, x, nC);
  }
}
