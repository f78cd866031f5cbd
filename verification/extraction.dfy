/**
 Turning the solver's answer into the schedule rows and the statistics that
 `optimize_schedule` returns, plus the top-level operation itself with the
 backtracking search in place of CP-SAT.
 */
module Extraction {
  import opened Wrappers
  import opened Flights
  import opened Constraints
  import Search

  /** One schedule row: which crew flies which flight, and the flight's data. */
  datatype Row = Row(crew: string, flight: string, start: int, duration: int, end: int, priority: int)

  function MakeRow(crew: string, f: Flight): Row {
    Row(crew, f.id, f.start, f.duration, End(f), f.priority)
  }

  /** The statuses CP-SAT can answer with. */
  datatype SolverStatus = CpOptimal | CpFeasible | CpInfeasible | CpUnknown | CpModelInvalid

  /** The status string the page reports. */
  datatype Status = OPTIMAL | FEASIBLE | INFEASIBLE

  predicate Solved(s: SolverStatus) {
    s == CpOptimal || s == CpFeasible
  }

  /** Optimal and feasible keep their name; every other solver answer reads as infeasible. */
  function ReportedStatus(s: SolverStatus): (r: Status)
    ensures r == OPTIMAL <==> s == CpOptimal
    ensures r == FEASIBLE <==> s == CpFeasible
    ensures r == INFEASIBLE <==> !Solved(s)
  {
    match s
    case CpOptimal => OPTIMAL
    case CpFeasible => FEASIBLE
    case _ => INFEASIBLE
  }

  predicate Distinct(crews: seq<string>) {
    forall i, j :: 0 <= i < j < |crews| ==> crews[i] != crews[j]
  }

  // ---------------------------------------------------------------- rows

  /** The rows of one flight: one per crew whose decision is true, in crew order. */
  function FlightRows(crews: seq<string>, fl: Flight, row: seq<bool>): seq<Row>
    requires |row| <= |crews|
  {
    if |row| == 0 then []
    else FlightRows(crews, fl, row[..|row| - 1]) + (if row[|row| - 1] then [MakeRow(crews[|row| - 1], fl)] else [])
  }

  /** All rows, flight by flight, as the nested extraction loop emits them. */
  function MatrixRows(fs: seq<Flight>, crews: seq<string>, x: Decisions): seq<Row>
    requires |x| <= |fs|
    requires forall f :: 0 <= f < |x| ==> |x[f]| <= |crews|
  {
    if |x| == 0 then []
    else MatrixRows(fs, crews, x[..|x| - 1]) + FlightRows(crews, fs[|x| - 1], x[|x| - 1])
  }

  /** One row per assigned flight, in flight order: the reference schedule of an assignment. */
  function AssignedRows(fs: seq<Flight>, crews: seq<string>, a: Assignment): (rows: seq<Row>)
    requires |a| <= |fs|
    requires forall f :: 0 <= f < |a| ==> a[f] < |crews|
    ensures |rows| == |a|
    ensures forall f :: 0 <= f < |a| ==> rows[f] == MakeRow(crews[a[f]], fs[f])
  {
    if |a| == 0 then []
    else AssignedRows(fs, crews, a[..|a| - 1]) + [MakeRow(crews[a[|a| - 1]], fs[|a| - 1])]
  }

  lemma {:induction false} NoTrueNoRows(crews: seq<string>, fl: Flight, row: seq<bool>)
    requires |row| <= |crews|
    requires CountTrue(row) == 0
    ensures FlightRows(crews, fl, row) == []
  {
    if |row| > 0 {
      NoTrueNoRows(crews, fl, row[..|row| - 1]);
    }
  }

  lemma {:induction false} OneTrueOneRow(crews: seq<string>, fl: Flight, row: seq<bool>)
    requires |row| <= |crews|
    requires CountTrue(row) == 1
    ensures FirstTrue(row) < |row|
    ensures FlightRows(crews, fl, row) == [MakeRow(crews[FirstTrue(row)], fl)]
  {
    var n := |row|;
    var init := row[..n - 1];
    if row[n - 1] {
      NoTrueNoRows(crews, fl, init);
      NoTrueRow(init);
      assert FirstTrue(init) == n - 1;
    } else {
      OneTrueOneRow(crews, fl, init);
    }
  }

  /**
   For a covering matrix the extraction emits exactly one row per flight, in
   flight order, naming the crew the matrix picks for it.
   */
  lemma {:induction false} CoverageRows(fs: seq<Flight>, crews: seq<string>, x: Decisions)
    requires |x| <= |fs|
    requires forall f :: 0 <= f < |x| ==> |x[f]| == |crews|
    requires Coverage(x)
    ensures forall f :: 0 <= f < |x| ==> FromDecisions(x)[f] < |crews|
    ensures MatrixRows(fs, crews, x) == AssignedRows(fs, crews, FromDecisions(x))
  {
    var a := FromDecisions(x);
    forall f | 0 <= f < |x|
      ensures a[f] < |crews|
    {
      OneTrueRow(x[f]);
    }
    if |x| > 0 {
      var n := |x|;
      CoverageRows(fs, crews, x[..n - 1]);
      OneTrueOneRow(crews, fs[n - 1], x[n - 1]);
      assert FromDecisions(x[..n - 1]) == a[..n - 1];
    }
  }

  // ---------------------------------------------------------------- hours per crew

  /** The crew column of a row list. */
  function CrewColumn(rows: seq<Row>): (ks: seq<string>)
    ensures |ks| == |rows|
  {
    seq(|rows|, i requires 0 <= i < |rows| => rows[i].crew)
  }

  /** Centi-hours of the rows naming crew `k`: the reference for the utilisation table. */
  function RowHours(rows: seq<Row>, k: string): int {
    if |rows| == 0 then 0
    else RowHours(rows[..|rows| - 1], k) + (if rows[|rows| - 1].crew == k then rows[|rows| - 1].duration else 0)
  }

  function TotalRowHours(rows: seq<Row>): int {
    if |rows| == 0 then 0 else TotalRowHours(rows[..|rows| - 1]) + rows[|rows| - 1].duration
  }

  /** An insertion-ordered crew-to-hours table (Python's dict, which keeps insertion order). */
  type Table = seq<(string, int)>

  function Keys(u: Table): (ks: seq<string>)
    ensures |ks| == |u|
  {
    seq(|u|, i requires 0 <= i < |u| => u[i].0)
  }

  /** The value stored for `k`, or 0 when `k` is absent (`dict.get(k, 0)`). */
  function Get(u: Table, k: string): int {
    if |u| == 0 then 0 else if u[0].0 == k then u[0].1 else Get(u[1..], k)
  }

  function SumValues(u: Table): int {
    if |u| == 0 then 0 else u[0].1 + SumValues(u[1..])
  }

  lemma KeysTail(u: Table)
    requires |u| > 0
    ensures Keys(u) == [u[0].0] + Keys(u[1..])
    ensures Distinct(Keys(u)) ==> u[0].0 !in Keys(u[1..]) && Distinct(Keys(u[1..]))
  {
    var ks := Keys(u);
    assert ks == [u[0].0] + Keys(u[1..]);
    if Distinct(ks) {
      forall i | 0 <= i < |u| - 1
        ensures Keys(u[1..])[i] != u[0].0
      {
        assert ks[0] != ks[i + 1];
      }
      forall i, j | 0 <= i < j < |u| - 1
        ensures Keys(u[1..])[i] != Keys(u[1..])[j]
      {
        assert ks[i + 1] != ks[j + 1];
      }
    }
  }

  /** Adds `d` to the entry of `k`, appending a fresh entry starting at 0 when `k` is new. */
  function Bump(u: Table, k: string, d: int): (r: Table)
    ensures Distinct(Keys(u)) ==> Distinct(Keys(r))
    ensures k in Keys(u) ==> Keys(r) == Keys(u)
    ensures k !in Keys(u) ==> Keys(r) == Keys(u) + [k]
    ensures forall k' :: Get(r, k') == Get(u, k') + (if k' == k then d else 0)
    ensures SumValues(r) == SumValues(u) + d
  {
    if |u| == 0 then [(k, 0 + d)]
    else if u[0].0 == k then
      var r := [(k, u[0].1 + d)] + u[1..];
      assert Keys(u)[0] == k;
      assert Keys(r) == Keys(u);
      r
    else
      var tail := Bump(u[1..], k, d);
      var r := [u[0]] + tail;
      assert Keys(u) == [u[0].0] + Keys(u[1..]);
      assert Keys(r) == [u[0].0] + Keys(tail);
      assert r[1..] == tail;
      KeysTail(u);
      r
  }

  /** The per-crew utilisation table built row by row, as the extraction loop does. */
  function Utilization(rows: seq<Row>): (u: Table)
    ensures Distinct(Keys(u))
    ensures forall k :: k in Keys(u) <==> k in CrewColumn(rows)
    ensures forall k :: Get(u, k) == RowHours(rows, k)
    ensures SumValues(u) == TotalRowHours(rows)
  {
    if |rows| == 0 then []
    else
      var init := rows[..|rows| - 1];
      assert CrewColumn(rows) == CrewColumn(init) + [rows[|rows| - 1].crew];
      Bump(Utilization(init), rows[|rows| - 1].crew, rows[|rows| - 1].duration)
  }

  /** Number of entries of `crews` that appear in the table with more than `maxDuty` hours. */
  function Violations(crews: seq<string>, u: Table, maxDuty: int): (r: nat)
    ensures r <= |crews|
  {
    if |crews| == 0 then 0
    else
      var k := crews[|crews| - 1];
      Violations(crews[..|crews| - 1], u, maxDuty) + (if k in Keys(u) && Get(u, k) > maxDuty then 1 else 0)
  }

  /** Reference count, read off the rows: entries of `crews` that fly something and exceed `maxDuty`. */
  function OverDutyCrews(crews: seq<string>, rows: seq<Row>, maxDuty: int): nat {
    if |crews| == 0 then 0
    else
      var k := crews[|crews| - 1];
      OverDutyCrews(crews[..|crews| - 1], rows, maxDuty) + (if k in CrewColumn(rows) && RowHours(rows, k) > maxDuty then 1 else 0)
  }

  /** The violation count of the utilisation table is the number of crews the rows put over the cap. */
  lemma {:induction false} ViolationsCountOverDutyCrews(crews: seq<string>, rows: seq<Row>, maxDuty: int)
    ensures Violations(crews, Utilization(rows), maxDuty) == OverDutyCrews(crews, rows, maxDuty)
  {
    if |crews| > 0 {
      ViolationsCountOverDutyCrews(crews[..|crews| - 1], rows, maxDuty);
    }
  }

  lemma {:induction false} NoViolationsWithinCap(crews: seq<string>, u: Table, maxDuty: int)
    requires forall i :: 0 <= i < |crews| ==> Get(u, crews[i]) <= maxDuty
    ensures Violations(crews, u, maxDuty) == 0
  {
    if |crews| > 0 {
      NoViolationsWithinCap(crews[..|crews| - 1], u, maxDuty);
    }
  }

  /** With distinct crew names, the hours of crew `c`'s name in the rows are that crew's load. */
  lemma {:induction false} AssignedRowsHours(fs: seq<Flight>, crews: seq<string>, a: Assignment, c: nat)
    requires Distinct(crews)
    requires |a| <= |fs|
    requires forall f :: 0 <= f < |a| ==> a[f] < |crews|
    requires c < |crews|
    ensures RowHours(AssignedRows(fs, crews, a), crews[c]) == Load(fs, a, c)
  {
    if |a| > 0 {
      var n := |a|;
      var rows := AssignedRows(fs, crews, a);
      assert rows[..n - 1] == AssignedRows(fs, crews, a[..n - 1]);
      AssignedRowsHours(fs, crews, a[..n - 1], c);
      assert crews[a[n - 1]] == crews[c] <==> a[n - 1] == c;
    }
  }

  /** The rows of an assignment carry the durations of the flights it assigns. */
  lemma {:induction false} AssignedRowsTotal(fs: seq<Flight>, crews: seq<string>, a: Assignment)
    requires |a| <= |fs|
    requires forall f :: 0 <= f < |a| ==> a[f] < |crews|
    ensures TotalRowHours(AssignedRows(fs, crews, a)) == TotalDuration(fs[..|a|])
  {
    if |a| > 0 {
      var n := |a|;
      var rows := AssignedRows(fs, crews, a);
      assert rows[..n - 1] == AssignedRows(fs, crews, a[..n - 1]);
      assert fs[..n][..n - 1] == fs[..n - 1];
      AssignedRowsTotal(fs, crews, a[..n - 1]);
    }
  }

  // ---------------------------------------------------------------- the solve result

  datatype Stats = Stats(status: Status, violations: nat, totalDutyHours: int, crewUtilization: Table)

  datatype Solution = Solution(rows: seq<Row>, stats: Stats)

  /** Solution and statistics from the solver's status and decision values. */
  function ExtractSolution(fs: seq<Flight>, crews: seq<string>, p: Params, raw: SolverStatus, x: Decisions): (r: Solution)
    requires WellShaped(x, |fs|, |crews|)
    ensures r.stats.status == ReportedStatus(raw)
    ensures !Solved(raw) ==> r == Solution([], Stats(INFEASIBLE, 0, 0, []))
    ensures Solved(raw) ==> r.stats.totalDutyHours == TotalRowHours(r.rows)
  {
    if Solved(raw) then
      var rows := MatrixRows(fs, crews, x);
      var u := Utilization(rows);
      Solution(rows, Stats(ReportedStatus(raw), Violations(crews, u, p.maxDuty), SumValues(u), u))
    else
      Solution([], Stats(ReportedStatus(raw), 0, 0, []))
  }

  /**
   Whatever solver produced it, a feasible answer with distinct crew names is
   extracted as one row per flight in flight order, with each crew's hours
   equal to its load, total hours equal to the sum of all durations, and no
   violations.
   */
  lemma ExtractFeasible(fs: seq<Flight>, crews: seq<string>, p: Params, raw: SolverStatus, x: Decisions)
    requires Distinct(crews)
    requires Solved(raw)
    requires Feasible(fs, x, |crews|, p)
    ensures Valid(fs, FromDecisions(x), |crews|, p)
    ensures ExtractSolution(fs, crews, p, raw, x).rows == AssignedRows(fs, crews, FromDecisions(x))
    ensures forall c :: 0 <= c < |crews| ==>
              Get(ExtractSolution(fs, crews, p, raw, x).stats.crewUtilization, crews[c]) == MatrixLoad(fs, x, c)
    ensures ExtractSolution(fs, crews, p, raw, x).stats.totalDutyHours == TotalDuration(fs)
    ensures ExtractSolution(fs, crews, p, raw, x).stats.violations == 0
  {
    var nC := |crews|;
    var a := FromDecisions(x);
    FeasibleMatrixIffValid(fs, x, nC, p);
    CoverageRows(fs, crews, x);
    DecisionsRoundTrip(x, |fs|, nC);
    var rows := AssignedRows(fs, crews, a);
    var u := Utilization(rows);
    forall c | 0 <= c < nC
      ensures Get(u, crews[c]) == MatrixLoad(fs, x, c) <= p.maxDuty
    {
      AssignedRowsHours(fs, crews, a, c);
      LoadsAgree(fs, a, nC, c);
    }
    NoViolationsWithinCap(crews, u, p.maxDuty);
    AssignedRowsTotal(fs, crews, a);
    assert fs[..|a|] == fs;
  }

  /** The all-false decision matrix, read when the solve has no answer. */
  function NoDecisions(nF: nat, nC: nat): (x: Decisions)
    ensures WellShaped(x, nF, nC)
  {
    seq(nF, f => seq(nC, c => false))
  }

  /** `optimize_schedule` with the backtracking search in the solver's place. */
  function OptimizeSchedule(fs: seq<Flight>, crews: seq<string>, p: Params): (r: Solution)
    ensures r.stats.status == OPTIMAL || r.stats.status == INFEASIBLE
    ensures r.stats.status == INFEASIBLE ==> r == Solution([], Stats(INFEASIBLE, 0, 0, []))
  {
    match Search.Solve(fs, |crews|, p)
    case Some(a) => ExtractSolution(fs, crews, p, CpOptimal, ToDecisions(a, |crews|))
    case None => ExtractSolution(fs, crews, p, CpInfeasible, NoDecisions(|fs|, |crews|))
  }

  /**
   An optimal report is backed by a valid assignment whose rows it lists; it
   covers every flight's hours, and with distinct crew names it has no violations.
   */
  lemma OptimizeScheduleSound(fs: seq<Flight>, crews: seq<string>, p: Params)
    requires OptimizeSchedule(fs, crews, p).stats.status == OPTIMAL
    ensures Search.Solve(fs, |crews|, p).Some?
    ensures Valid(fs, Search.Solve(fs, |crews|, p).value, |crews|, p)
    ensures OptimizeSchedule(fs, crews, p).rows == AssignedRows(fs, crews, Search.Solve(fs, |crews|, p).value)
    ensures OptimizeSchedule(fs, crews, p).stats.totalDutyHours == TotalDuration(fs)
    ensures Distinct(crews) ==> OptimizeSchedule(fs, crews, p).stats.violations == 0
    ensures Distinct(crews) ==> forall c :: 0 <= c < |crews| ==>
              Get(OptimizeSchedule(fs, crews, p).stats.crewUtilization, crews[c])
                == Load(fs, Search.Solve(fs, |crews|, p).value, c)
  {
    var a := Search.Solve(fs, |crews|, p).value;
    var x := ToDecisions(a, |crews|);
    FeasibleIffValid(fs, a, |crews|, p);
    AssignmentRoundTrip(a, |crews|);
    CoverageRows(fs, crews, x);
    AssignedRowsTotal(fs, crews, a);
    assert fs[..|a|] == fs;
    if Distinct(crews) {
      ExtractFeasible(fs, crews, p, CpOptimal, x);
      forall c | 0 <= c < |crews|
        ensures MatrixLoad(fs, x, c) == Load(fs, a, c)
      {
        LoadsAgree(fs, a, |crews|, c);
      }
    }
  }

  /** The report is optimal because every feasible decision matrix scores what the returned one scores. */
  lemma OptimizeScheduleOptimal(fs: seq<Flight>, crews: seq<string>, p: Params, y: Decisions)
    requires OptimizeSchedule(fs, crews, p).stats.status == OPTIMAL
    requires Feasible(fs, y, |crews|, p)
    ensures Objective(fs, ToDecisions(Search.Solve(fs, |crews|, p).value, |crews|), |crews|) == Objective(fs, y, |crews|)
  {
    ValidIsOptimal(fs, Search.Solve(fs, |crews|, p).value, y, |crews|, p);
  }

  /** With non-negative durations the report is infeasible exactly when no valid assignment exists. */
  lemma OptimizeScheduleInfeasible(fs: seq<Flight>, crews: seq<string>, p: Params)
    requires NonNegativeDurations(fs)
    ensures OptimizeSchedule(fs, crews, p).stats.status == INFEASIBLE
        <==> !exists a :: Valid(fs, a, |crews|, p)
  {
    Search.SolveNoneIffInfeasible(fs, |crews|, p);
  }

  /** Fewer crew slots than flights: infeasible, no rows, all statistics zero. */
  lemma CapacityShortReport(fs: seq<Flight>, crews: seq<string>, p: Params)
    requires |crews| * p.maxFlights < |fs|
    ensures OptimizeSchedule(fs, crews, p) == Solution([], Stats(INFEASIBLE, 0, 0, []))
  {
    Search.CapacityShortSolveNone(fs, |crews|, p);
  }
}
