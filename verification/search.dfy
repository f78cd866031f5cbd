/**
 A deterministic backtracking search standing in for the CP-SAT solver.
 Flights are assigned in index order; for each flight the crews are tried
 from index 0 upwards, backtracking when no crew fits. Whatever it returns
 is a valid assignment; when no flight has a negative duration it finds one
 whenever one exists (`SolveComplete`).
 */
module Search {
  import opened Wrappers
  import opened Flights
  import opened Constraints

  /** Crew `c` can also fly the next unassigned flight without breaking a constraint. */
  predicate CanAdd(fs: seq<Flight>, prefix: Assignment, c: nat, p: Params)
    requires |prefix| < |fs|
  {
    var k := |prefix|;
    && Load(fs, prefix, c) + fs[k].duration <= p.maxDuty
    && Count(prefix, c) + 1 <= p.maxFlights
    && forall j :: 0 <= j < k && prefix[j] == c ==> !Conflict(fs[j], fs[k], p.minRest)
  }

  lemma ExtendValid(fs: seq<Flight>, prefix: Assignment, c: nat, nC: nat, p: Params)
    requires PartialValid(fs, prefix, nC, p)
    requires |prefix| < |fs| && c < nC
    requires CanAdd(fs, prefix, c, p)
    ensures PartialValid(fs, prefix + [c], nC, p)
  {
    var a := prefix + [c];
    var k := |prefix|;
    assert a[..|a| - 1] == prefix;
    forall c' | 0 <= c' < nC
      ensures Load(fs, a, c') <= p.maxDuty && Count(a, c') <= p.maxFlights
    {
      assert Load(fs, a, c') == Load(fs, prefix, c') + (if c' == c then fs[k].duration else 0);
      assert Count(a, c') == Count(prefix, c') + (if c' == c then 1 else 0);
    }
    forall i, j | 0 <= i < j < |a| && a[i] == a[j]
      ensures !Conflict(fs[i], fs[j], p.minRest)
    {
      if j == k {
        assert prefix[i] == c;
      } else {
        assert a[i] == prefix[i] && a[j] == prefix[j];
      }
    }
  }

  lemma ValidPrefixCanAdd(fs: seq<Flight>, prefix: Assignment, c: nat, nC: nat, p: Params)
    requires |prefix| < |fs|
    requires PartialValid(fs, prefix + [c], nC, p)
    ensures c < nC
    ensures CanAdd(fs, prefix, c, p)
  {
    var a := prefix + [c];
    assert a[..|a| - 1] == prefix;
    assert a[|prefix|] == c;
    assert Load(fs, a, c) == Load(fs, prefix, c) + fs[|prefix|].duration;
  }

  /** Dropping the last flight of an assignment never adds load when durations are non-negative. */
  lemma DropLastValid(fs: seq<Flight>, a: Assignment, nC: nat, p: Params)
    requires NonNegativeDurations(fs)
    requires |a| > 0
    requires PartialValid(fs, a, nC, p)
    ensures PartialValid(fs, a[..|a| - 1], nC, p)
  {
    var b := a[..|a| - 1];
    forall c | 0 <= c < nC
      ensures Load(fs, b, c) <= p.maxDuty && Count(b, c) <= p.maxFlights
    {
      assert Load(fs, b, c) <= Load(fs, a, c);
    }
  }

  /** Every prefix of a valid assignment is partially valid when durations are non-negative. */
  lemma {:induction false} PrefixValid(fs: seq<Flight>, a: Assignment, k: nat, nC: nat, p: Params)
    requires NonNegativeDurations(fs)
    requires PartialValid(fs, a, nC, p)
    requires k <= |a|
    ensures PartialValid(fs, a[..k], nC, p)
    decreases |a| - k
  {
    if k == |a| {
      assert a[..k] == a;
    } else {
      PrefixValid(fs, a, k + 1, nC, p);
      DropLastValid(fs, a[..k + 1], nC, p);
      assert a[..k + 1][..k] == a[..k];
    }
  }

  /** Completes `prefix` to a valid assignment, or answers `None`. */
  function Extend(fs: seq<Flight>, nC: nat, p: Params, prefix: Assignment): (r: Option<Assignment>)
    requires PartialValid(fs, prefix, nC, p)
    ensures r.Some? ==> Valid(fs, r.value, nC, p) && prefix <= r.value
    decreases |fs| - |prefix|, nC + 1
  {
    if |prefix| == |fs| then Some(prefix) else TryCrews(fs, nC, p, prefix, 0)
  }

  /** Tries crews `c`, `c + 1`, ... for flight `|prefix|`, backtracking on failure. */
  function TryCrews(fs: seq<Flight>, nC: nat, p: Params, prefix: Assignment, c: nat): (r: Option<Assignment>)
    requires PartialValid(fs, prefix, nC, p)
    requires |prefix| < |fs| && c <= nC
    ensures r.Some? ==> Valid(fs, r.value, nC, p) && prefix <= r.value && r.value[|prefix|] >= c
    decreases |fs| - |prefix|, nC - c
  {
    if c == nC then None
    else if CanAdd(fs, prefix, c, p) then
      ExtendValid(fs, prefix, c, nC, p);
      match Extend(fs, nC, p, prefix + [c])
      case Some(a) => Some(a)
      case None => TryCrews(fs, nC, p, prefix, c + 1)
    else TryCrews(fs, nC, p, prefix, c + 1)
  }

  /** The solve: a valid assignment of all flights, or `None`. */
  function Solve(fs: seq<Flight>, nC: nat, p: Params): (r: Option<Assignment>)
    ensures r.Some? ==> Valid(fs, r.value, nC, p)
  {
    if PartialValid(fs, [], nC, p) then Extend(fs, nC, p, []) else None
  }

  lemma {:induction false} ExtendComplete(fs: seq<Flight>, nC: nat, p: Params, prefix: Assignment, a: Assignment)
    requires NonNegativeDurations(fs)
    requires PartialValid(fs, prefix, nC, p)
    requires Valid(fs, a, nC, p) && prefix <= a
    ensures Extend(fs, nC, p, prefix).Some?
    decreases |fs| - |prefix|, nC + 1
  {
    if |prefix| < |fs| {
      var k := |prefix|;
      PrefixValid(fs, a, k + 1, nC, p);
      assert a[..k + 1] == prefix + [a[k]];
      ValidPrefixCanAdd(fs, prefix, a[k], nC, p);
      TryCrewsComplete(fs, nC, p, prefix, 0, a);
    }
  }

  lemma {:induction false} TryCrewsComplete(fs: seq<Flight>, nC: nat, p: Params, prefix: Assignment, c: nat, a: Assignment)
    requires NonNegativeDurations(fs)
    requires PartialValid(fs, prefix, nC, p)
    requires |prefix| < |fs| && c <= nC
    requires Valid(fs, a, nC, p) && prefix <= a && a[|prefix|] >= c
    ensures TryCrews(fs, nC, p, prefix, c).Some?
    decreases |fs| - |prefix|, nC - c
  {
    var k := |prefix|;
    PrefixValid(fs, a, k + 1, nC, p);
    assert a[..k + 1] == prefix + [a[k]];
    ValidPrefixCanAdd(fs, prefix, a[k], nC, p);
    if a[k] == c {
      ExtendValid(fs, prefix, c, nC, p);
      ExtendComplete(fs, nC, p, prefix + [c], a);
    } else {
      TryCrewsComplete(fs, nC, p, prefix, c + 1, a);
    }
  }

  /** With non-negative durations the solve finds an assignment whenever one exists. */
  lemma SolveComplete(fs: seq<Flight>, nC: nat, p: Params, a: Assignment)
    requires NonNegativeDurations(fs)
    requires Valid(fs, a, nC, p)
    ensures Solve(fs, nC, p).Some?
  {
    PrefixValid(fs, a, 0, nC, p);
    assert a[..0] == [];
    ExtendComplete(fs, nC, p, [], a);
  }

  /** With non-negative durations the solve answers `None` exactly when no valid assignment exists. */
  lemma SolveNoneIffInfeasible(fs: seq<Flight>, nC: nat, p: Params)
    requires NonNegativeDurations(fs)
    ensures Solve(fs, nC, p).None? <==> !exists a :: Valid(fs, a, nC, p)
  {
    if a :| Valid(fs, a, nC, p) {
      SolveComplete(fs, nC, p, a);
    }
  }

  // ---------------------------------------------------------------- capacity argument

  /** Total number of flights the first `n` crews fly. */
  function CrewCounts(a: Assignment, n: nat): nat {
    if n == 0 then 0 else CrewCounts(a, n - 1) + Count(a, n - 1)
  }

  lemma {:induction false} CrewCountsStep(a: Assignment, n: nat)
    requires |a| > 0
    ensures CrewCounts(a, n) == CrewCounts(a[..|a| - 1], n) + (if a[|a| - 1] < n then 1 else 0)
  {
    if n > 0 {
      CrewCountsStep(a, n - 1);
    }
  }

  lemma {:induction false} CrewCountsTotal(a: Assignment, n: nat)
    requires forall f :: 0 <= f < |a| ==> a[f] < n
    ensures CrewCounts(a, n) == |a|
  {
    if |a| == 0 {
      CrewCountsEmpty(a, n);
    } else {
      CrewCountsStep(a, n);
      CrewCountsTotal(a[..|a| - 1], n);
    }
  }

  lemma {:induction false} CrewCountsEmpty(a: Assignment, n: nat)
    requires |a| == 0
    ensures CrewCounts(a, n) == 0
  {
    if n > 0 {
      CrewCountsEmpty(a, n - 1);
    }
  }

  lemma {:induction false} CrewCountsBound(a: Assignment, n: nat, m: int)
    requires forall c :: 0 <= c < n ==> Count(a, c) <= m
    ensures CrewCounts(a, n) <= n * m
  {
    if n > 0 {
      CrewCountsBound(a, n - 1, m);
      assert (n - 1) * m + m == n * m;
    }
  }

  /** A valid assignment never has more flights than crews times the per-crew flight cap. */
  lemma ValidNeedsCapacity(fs: seq<Flight>, a: Assignment, nC: nat, p: Params)
    requires Valid(fs, a, nC, p)
    ensures |fs| <= nC * p.maxFlights
  {
    CrewCountsTotal(a, nC);
    CrewCountsBound(a, nC, p.maxFlights);
  }

  /** Too few crew slots for the flights: the solve reports no assignment. */
  lemma CapacityShortSolveNone(fs: seq<Flight>, nC: nat, p: Params)
    requires nC * p.maxFlights < |fs|
    ensures Solve(fs, nC, p).None?
  {
    var r := Solve(fs, nC, p);
    if r.Some? {
      ValidNeedsCapacity(fs, r.value, nC, p);
    }
  }
}
