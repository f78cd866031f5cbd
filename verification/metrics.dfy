/**
 The figures the schedule page derives from a solve result: average
 utilisation, the per-crew cards (flights grouped by crew, crews in name
 order, each crew's flights by start time), the unassigned-crew list and the
 utilisation table. None of them solves anything; they only aggregate.
 */
module Metrics {
  import opened Flights
  import opened Constraints
  import opened Extraction
  import Sorting
  import Search

  // ---------------------------------------------------------------- average utilisation

  /** `total / (crews * maxDuty) * 100`; both hour figures are in the same unit, so the scale cancels. */
  function AvgUtilization(total: int, nCrews: nat, maxDuty: int): (r: real)
    requires nCrews > 0 && maxDuty > 0
    ensures r * (nCrews * maxDuty) as real == (total * 100) as real
    ensures 0 <= total <= nCrews * maxDuty ==> 0.0 <= r <= 100.0
  {
    var pool := (nCrews * maxDuty) as real;
    assert pool > 0.0;
    (total as real / pool) * 100.0
  }

  /** Sum of the loads of the first `n` crews. */
  function CrewLoads(fs: seq<Flight>, a: Assignment, n: nat): int
    requires |a| <= |fs|
  {
    if n == 0 then 0 else CrewLoads(fs, a, n - 1) + Load(fs, a, n - 1)
  }

  lemma {:induction false} CrewLoadsStep(fs: seq<Flight>, a: Assignment, n: nat)
    requires 0 < |a| <= |fs|
    ensures CrewLoads(fs, a, n)
         == CrewLoads(fs, a[..|a| - 1], n) + (if a[|a| - 1] < n then fs[|a| - 1].duration else 0)
  {
    if n > 0 {
      CrewLoadsStep(fs, a, n - 1);
    }
  }

  lemma {:induction false} CrewLoadsEmpty(fs: seq<Flight>, a: Assignment, n: nat)
    requires |a| == 0
    ensures CrewLoads(fs, a, n) == 0
  {
    if n > 0 {
      CrewLoadsEmpty(fs, a, n - 1);
    }
  }

  /** The crews' loads together are the durations of all the assigned flights. */
  lemma {:induction false} CrewLoadsTotal(fs: seq<Flight>, a: Assignment, n: nat)
    requires |a| <= |fs|
    requires forall f :: 0 <= f < |a| ==> a[f] < n
    ensures CrewLoads(fs, a, n) == TotalDuration(fs[..|a|])
  {
    if |a| == 0 {
      CrewLoadsEmpty(fs, a, n);
    } else {
      var k := |a|;
      CrewLoadsStep(fs, a, n);
      CrewLoadsTotal(fs, a[..k - 1], n);
      assert fs[..k][..k - 1] == fs[..k - 1];
    }
  }

  lemma {:induction false} CrewLoadsBound(fs: seq<Flight>, a: Assignment, n: nat, m: int)
    requires |a| <= |fs|
    requires forall c :: 0 <= c < n ==> Load(fs, a, c) <= m
    ensures CrewLoads(fs, a, n) <= n * m
  {
    if n > 0 {
      CrewLoadsBound(fs, a, n - 1, m);
      assert (n - 1) * m + m == n * m;
    }
  }

  lemma {:induction false} LoadNonNegative(fs: seq<Flight>, a: Assignment, c: nat)
    requires NonNegativeDurations(fs)
    requires |a| <= |fs|
    ensures Load(fs, a, c) >= 0
  {
    if |a| > 0 {
      LoadNonNegative(fs, a[..|a| - 1], c);
    }
  }

  lemma {:induction false} TotalDurationNonNegative(fs: seq<Flight>)
    requires NonNegativeDurations(fs)
    ensures TotalDuration(fs) >= 0
  {
    if |fs| > 0 {
      TotalDurationNonNegative(fs[..|fs| - 1]);
    }
  }

  /** A valid assignment never needs more hours than all crews' duty caps together. */
  lemma ValidWithinDutyPool(fs: seq<Flight>, a: Assignment, nC: nat, p: Params)
    requires Valid(fs, a, nC, p)
    ensures TotalDuration(fs) <= nC * p.maxDuty
  {
    CrewLoadsTotal(fs, a, nC);
    CrewLoadsBound(fs, a, nC, p.maxDuty);
    assert fs[..|a|] == fs;
  }

  /** An optimal report's average utilisation is a percentage. */
  lemma OptimalAvgUtilizationBounded(fs: seq<Flight>, crews: seq<string>, p: Params)
    requires NonNegativeDurations(fs)
    requires |crews| > 0 && p.maxDuty > 0
    requires OptimizeSchedule(fs, crews, p).stats.status == OPTIMAL
    ensures 0.0 <= AvgUtilization(OptimizeSchedule(fs, crews, p).stats.totalDutyHours, |crews|, p.maxDuty) <= 100.0
  {
    OptimizeScheduleSound(fs, crews, p);
    ValidWithinDutyPool(fs, Search.Solve(fs, |crews|, p).value, |crews|, p);
    TotalDurationNonNegative(fs);
  }

  // ---------------------------------------------------------------- crew cards

  /** The rows of crew `k`, in solution order (the grouping dict's list for `k`). */
  function CrewFlights(rows: seq<Row>, k: string): (r: seq<Row>)
    ensures forall x :: multiset(r)[x] == (if x.crew == k then multiset(rows)[x] else 0)
    ensures TotalRowHours(r) == RowHours(rows, k)
  {
    if |rows| == 0 then []
    else
      var init := rows[..|rows| - 1];
      var last := rows[|rows| - 1];
      assert rows == init + [last];
      assert multiset(rows) == multiset(init) + multiset{last};
      var group := CrewFlights(init, k);
      if last.crew == k then
        var r := group + [last];
        assert r[..|group|] == group;
        assert multiset(r) == multiset(group) + multiset{last};
        r
      else group
  }

  lemma CrewFlightsStep(rows: seq<Row>, k: string)
    requires |rows| > 0
    ensures CrewFlights(rows, k)
         == CrewFlights(rows[..|rows| - 1], k) + (if rows[|rows| - 1].crew == k then [rows[|rows| - 1]] else [])
  {
  }

  /** The rows of crew `k`. */
  function OfCrew(k: string): Row -> bool {
    (x: Row) => x.crew == k
  }

  /** A crew's group is the rows filtered by crew, in solution order. */
  lemma {:induction false} CrewFlightsIsFilter(rows: seq<Row>, k: string)
    ensures CrewFlights(rows, k) == Sorting.Filter(rows, OfCrew(k))
  {
    if |rows| > 0 {
      var init := rows[..|rows| - 1];
      var last := rows[|rows| - 1];
      assert rows == init + [last];
      CrewFlightsStep(rows, k);
      CrewFlightsIsFilter(init, k);
      Sorting.FilterAppend(init, [last], OfCrew(k));
      Sorting.FilterCons(last, [], OfCrew(k));
      assert [last] + [] == [last];
    }
  }

  /** Grouping keeps solution order: the group of a concatenation is the concatenation of the groups. */
  lemma CrewFlightsAppend(a: seq<Row>, b: seq<Row>, k: string)
    ensures CrewFlights(a + b, k) == CrewFlights(a, k) + CrewFlights(b, k)
  {
    CrewFlightsIsFilter(a + b, k);
    CrewFlightsIsFilter(a, k);
    CrewFlightsIsFilter(b, k);
    Sorting.FilterAppend(a, b, OfCrew(k));
  }

  /** A single row joins the group exactly when it belongs to the crew. */
  lemma CrewFlightsSingle(x: Row, k: string)
    ensures CrewFlights([x], k) == if x.crew == k then [x] else []
  {
    assert [x][..0] == [];
  }

  /** Lexicographic order on crew names, as Python compares strings. */
  function LexLe(a: string, b: string): bool {
    if |a| == 0 then true
    else if |b| == 0 then false
    else if a[0] != b[0] then a[0] < b[0]
    else LexLe(a[1..], b[1..])
  }

  lemma {:induction false} LexLeConnected(a: string, b: string)
    ensures LexLe(a, b) || LexLe(b, a)
  {
    if |a| > 0 && |b| > 0 && a[0] == b[0] {
      LexLeConnected(a[1..], b[1..]);
    }
  }

  lemma LexLeTotal()
    ensures Sorting.Total(LexLe)
  {
    forall a, b
      ensures LexLe(a, b) || LexLe(b, a)
    {
      LexLeConnected(a, b);
    }
  }

  /** The crews that have a card, in name order. */
  function SortedCrews(rows: seq<Row>): (r: seq<string>)
    ensures Sorting.Sorted(r, LexLe)
    ensures multiset(r) == multiset(Keys(Utilization(rows)))
    ensures forall k :: k in r <==> k in CrewColumn(rows)
  {
    LexLeTotal();
    var r := Sorting.SortBy(Keys(Utilization(rows)), LexLe);
    assert forall k :: k in r <==> k in multiset(r);
    r
  }

  predicate StartLe(x: Row, y: Row) {
    x.start <= y.start
  }

  /** The rows that start at time `t`: one class of ties for `StartLe`. */
  function StartsAt(t: int): Row -> bool {
    (x: Row) => x.start == t
  }

  /** One crew card: its flights by start time, the card's flight count and duty hours. */
  datatype Card = Card(crew: string, flights: seq<Row>, numFlights: nat, totalHours: int)

  function CrewCard(rows: seq<Row>, k: string): (card: Card)
    ensures Sorting.Sorted(card.flights, StartLe)
    ensures multiset(card.flights) == multiset(CrewFlights(rows, k))
    ensures forall x :: x in card.flights ==> x.crew == k && x in rows
    ensures card.totalHours == Get(Utilization(rows), k)
    ensures card.numFlights == |card.flights|
  {
    var group := CrewFlights(rows, k);
    var ordered := Sorting.SortBy(group, StartLe);
    assert forall x :: x in ordered ==> x in multiset(group);
    Card(k, ordered, |group|, TotalRowHours(group))
  }

  /** Flights with the same start time stay in solution order on the card. */
  lemma CrewCardStable(rows: seq<Row>, k: string, t: int)
    ensures Sorting.Filter(CrewCard(rows, k).flights, StartsAt(t)) == Sorting.Filter(CrewFlights(rows, k), StartsAt(t))
  {
    assert Sorting.Total(StartLe) && Sorting.Transitive(StartLe);
    assert Sorting.Tied(StartsAt(t), StartLe);
    Sorting.SortByStable(CrewFlights(rows, k), StartLe, StartsAt(t));
  }

  /** The card's flight count is the crew's flight count in an optimal report. */
  lemma CardCountsFlights(fs: seq<Flight>, crews: seq<string>, p: Params, c: nat)
    requires Distinct(crews)
    requires c < |crews|
    requires OptimizeSchedule(fs, crews, p).stats.status == OPTIMAL
    ensures CrewCard(OptimizeSchedule(fs, crews, p).rows, crews[c]).numFlights
         == Count(Search.Solve(fs, |crews|, p).value, c)
    ensures CrewCard(OptimizeSchedule(fs, crews, p).rows, crews[c]).numFlights <= p.maxFlights
  {
    OptimizeScheduleSound(fs, crews, p);
    var a := Search.Solve(fs, |crews|, p).value;
    AssignedRowsCount(fs, crews, a, c);
  }

  lemma {:induction false} AssignedRowsCount(fs: seq<Flight>, crews: seq<string>, a: Assignment, c: nat)
    requires Distinct(crews)
    requires |a| <= |fs|
    requires forall f :: 0 <= f < |a| ==> a[f] < |crews|
    requires c < |crews|
    ensures |CrewFlights(AssignedRows(fs, crews, a), crews[c])| == Count(a, c)
  {
    if |a| > 0 {
      var n := |a|;
      var rows := AssignedRows(fs, crews, a);
      assert rows[..n - 1] == AssignedRows(fs, crews, a[..n - 1]);
      AssignedRowsCount(fs, crews, a[..n - 1], c);
      assert crews[a[n - 1]] == crews[c] <==> a[n - 1] == c;
    }
  }

  // ---------------------------------------------------------------- unassigned crews

  /** The entries of `crews`, in order, that fly nothing. */
  function UnassignedCrews(crews: seq<string>, rows: seq<Row>): (r: seq<string>)
    ensures forall k :: multiset(r)[k] == (if k in CrewColumn(rows) then 0 else multiset(crews)[k])
    ensures forall k :: k in r <==> k in crews && k !in CrewColumn(rows)
  {
    if |crews| == 0 then []
    else
      var k := crews[|crews| - 1];
      assert crews == crews[..|crews| - 1] + [k];
      var init := UnassignedCrews(crews[..|crews| - 1], rows);
      var r := if k in CrewColumn(rows) then init else init + [k];
      assert forall j :: j in r <==> j in multiset(r);
      assert forall j :: j in crews <==> j in multiset(crews);
      r
  }

  lemma UnassignedCrewsStep(crews: seq<string>, rows: seq<Row>)
    requires |crews| > 0
    ensures UnassignedCrews(crews, rows)
         == UnassignedCrews(crews[..|crews| - 1], rows)
            + (if crews[|crews| - 1] in CrewColumn(rows) then [] else [crews[|crews| - 1]])
  {
  }

  /** The crews with no rows. */
  function Idle(rows: seq<Row>): string -> bool {
    (k: string) => k !in CrewColumn(rows)
  }

  /** The unassigned list is the crew list filtered by "has no rows", in crew-list order. */
  lemma {:induction false} UnassignedCrewsIsFilter(crews: seq<string>, rows: seq<Row>)
    ensures UnassignedCrews(crews, rows) == Sorting.Filter(crews, Idle(rows))
  {
    if |crews| > 0 {
      var init := crews[..|crews| - 1];
      var last := crews[|crews| - 1];
      assert crews == init + [last];
      UnassignedCrewsStep(crews, rows);
      UnassignedCrewsIsFilter(init, rows);
      Sorting.FilterAppend(init, [last], Idle(rows));
      Sorting.FilterCons(last, [], Idle(rows));
      assert [last] + [] == [last];
    }
  }

  /** The list keeps the crew list's order: it distributes over concatenation. */
  lemma UnassignedCrewsAppend(s: seq<string>, t: seq<string>, rows: seq<Row>)
    ensures UnassignedCrews(s + t, rows) == UnassignedCrews(s, rows) + UnassignedCrews(t, rows)
  {
    UnassignedCrewsIsFilter(s + t, rows);
    UnassignedCrewsIsFilter(s, rows);
    UnassignedCrewsIsFilter(t, rows);
    Sorting.FilterAppend(s, t, Idle(rows));
  }

  /** One crew is listed exactly when it flies nothing. */
  lemma UnassignedCrewsSingle(k: string, rows: seq<Row>)
    ensures UnassignedCrews([k], rows) == if k in CrewColumn(rows) then [] else [k]
  {
    assert [k][..0] == [];
  }

  // ---------------------------------------------------------------- utilisation table

  /** One line of the utilisation table: hours, percentage of the cap, and hours left. */
  datatype UtilRow = UtilRow(crew: string, hours: int, utilization: real, available: int)

  /** One line per entry of `crews`, in order; crews without rows read as 0 hours. */
  function UtilizationData(crews: seq<string>, u: Table, maxDuty: int): (r: seq<UtilRow>)
    requires maxDuty > 0
    ensures |r| == |crews|
    ensures forall i :: 0 <= i < |r| ==>
              && r[i].crew == crews[i]
              && r[i].hours == Get(u, crews[i])
              && r[i].hours + r[i].available == maxDuty
              && r[i].utilization * maxDuty as real == (r[i].hours * 100) as real
  {
    seq(|crews|, i requires 0 <= i < |crews| =>
      var hours := Get(u, crews[i]);
      UtilRow(crews[i], hours, (hours as real / maxDuty as real) * 100.0, maxDuty - hours))
  }

  lemma PercentBounds(hours: int, maxDuty: int)
    requires maxDuty > 0
    requires 0 <= hours <= maxDuty
    ensures 0.0 <= (hours as real / maxDuty as real) * 100.0 <= 100.0
  {
    assert hours as real / maxDuty as real <= 1.0;
  }

  /** Hours within the cap give utilisation percentages within 0..100 and nothing over the cap. */
  lemma UtilizationDataWithinCap(crews: seq<string>, u: Table, maxDuty: int)
    requires maxDuty > 0
    requires forall i :: 0 <= i < |crews| ==> 0 <= Get(u, crews[i]) <= maxDuty
    ensures forall i :: 0 <= i < |crews| ==>
              && 0.0 <= UtilizationData(crews, u, maxDuty)[i].utilization <= 100.0
              && UtilizationData(crews, u, maxDuty)[i].available >= 0
  {
    forall i | 0 <= i < |crews|
      ensures 0.0 <= UtilizationData(crews, u, maxDuty)[i].utilization <= 100.0
    {
      PercentBounds(Get(u, crews[i]), maxDuty);
    }
  }

  /** In an optimal report every crew's utilisation is between 0 and 100 percent and none is over its cap. */
  lemma OptimalUtilizationWithinCap(fs: seq<Flight>, crews: seq<string>, p: Params)
    requires NonNegativeDurations(fs)
    requires Distinct(crews)
    requires p.maxDuty > 0
    requires OptimizeSchedule(fs, crews, p).stats.status == OPTIMAL
    ensures var data := UtilizationData(crews, OptimizeSchedule(fs, crews, p).stats.crewUtilization, p.maxDuty);
            forall i :: 0 <= i < |crews| ==> 0.0 <= data[i].utilization <= 100.0 && data[i].available >= 0
  {
    OptimizeScheduleSound(fs, crews, p);
    var a := Search.Solve(fs, |crews|, p).value;
    var u := OptimizeSchedule(fs, crews, p).stats.crewUtilization;
    forall i | 0 <= i < |crews|
      ensures 0 <= Get(u, crews[i]) <= p.maxDuty
    {
      LoadNonNegative(fs, a, i);
    }
    UtilizationDataWithinCap(crews, u, p.maxDuty);
  }
}
