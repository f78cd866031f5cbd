/**
 Stable insertion sort over a caller-supplied "comes no later than" relation.
 It stands for Python's `sorted(...)` / `list.sort(...)`, which are stable.
 */
module Sorting {

  /** `le` relates every pair one way or the other. */
  ghost predicate Total<T(!new)>(le: (T, T) -> bool) {
    forall a, b :: le(a, b) || le(b, a)
  }

  ghost predicate Transitive<T(!new)>(le: (T, T) -> bool) {
    forall a, b, c :: le(a, b) && le(b, c) ==> le(a, c)
  }

  /** Every element comes no later than its successor. */
  ghost predicate Sorted<T>(s: seq<T>, le: (T, T) -> bool) {
    forall i :: 0 < i < |s| ==> le(s[i - 1], s[i])
  }

  /** Every element comes no later than every element after it. */
  ghost predicate SortedPairwise<T>(s: seq<T>, le: (T, T) -> bool) {
    forall i, j :: 0 <= i < j < |s| ==> le(s[i], s[j])
  }

  /** Puts `x` in front of the first element it comes no later than. */
  function Insert<T(!new)>(x: T, s: seq<T>, le: (T, T) -> bool): (r: seq<T>)
    requires Total(le)
    requires Sorted(s, le)
    ensures multiset(r) == multiset(s) + multiset{x}
    ensures Sorted(r, le)
    ensures |r| == |s| + 1
    ensures r[0] == x || (|s| > 0 && r[0] == s[0])
  {
    if |s| == 0 then [x]
    else if le(x, s[0]) then [x] + s
    else
      var tail := Insert(x, s[1..], le);
      assert le(s[0], x);
      assert s == [s[0]] + s[1..];
      [s[0]] + tail
  }

  /** Sorts `s` by `le`, keeping equal elements in their original order. */
  function SortBy<T(!new)>(s: seq<T>, le: (T, T) -> bool): (r: seq<T>)
    requires Total(le)
    ensures multiset(r) == multiset(s)
    ensures |r| == |s|
    ensures Sorted(r, le)
  {
    if |s| == 0 then []
    else
      assert s == [s[0]] + s[1..];
      Insert(s[0], SortBy(s[1..], le), le)
  }

  /** For a transitive relation, neighbour order gives order between all pairs. */
  lemma {:induction false} SortedIsPairwise<T(!new)>(s: seq<T>, le: (T, T) -> bool)
    requires Transitive(le)
    requires Sorted(s, le)
    ensures SortedPairwise(s, le)
  {
    forall i, j | 0 <= i < j < |s|
      ensures le(s[i], s[j])
    {
      SortedStep(s, le, i, j);
    }
  }

  lemma {:induction false} SortedStep<T(!new)>(s: seq<T>, le: (T, T) -> bool, i: int, j: int)
    requires Transitive(le)
    requires Sorted(s, le)
    requires 0 <= i < j < |s|
    ensures le(s[i], s[j])
    decreases j - i
  {
    if j == i + 1 {
    } else {
      SortedStep(s, le, i, j - 1);
      assert le(s[j - 1], s[j]);
    }
  }

  /** The elements of `s` that satisfy `p`, in their order in `s`. */
  ghost function Filter<T>(s: seq<T>, p: T -> bool): seq<T> {
    if |s| == 0 then [] else (if p(s[0]) then [s[0]] else []) + Filter(s[1..], p)
  }

  /** Filtering distributes over concatenation. */
  lemma {:induction false} FilterAppend<T>(a: seq<T>, b: seq<T>, p: T -> bool)
    ensures Filter(a + b, p) == Filter(a, p) + Filter(b, p)
    decreases |a|
  {
    if |a| == 0 {
      assert a + b == b;
    } else {
      var rest := a[1..];
      var head := if p(a[0]) then [a[0]] else [];
      assert a == [a[0]] + rest;
      assert a + b == [a[0]] + (rest + b);
      FilterCons(a[0], rest + b, p);
      FilterCons(a[0], rest, p);
      FilterAppend(rest, b, p);
      assert head + (Filter(rest, p) + Filter(b, p)) == (head + Filter(rest, p)) + Filter(b, p);
    }
  }

  /** Every two elements satisfying `p` are tied under `le`: `p` picks out one class of equal keys. */
  ghost predicate Tied<T(!new)>(p: T -> bool, le: (T, T) -> bool) {
    forall a, b :: p(a) && p(b) ==> le(a, b)
  }

  lemma FilterCons<T>(a: T, t: seq<T>, p: T -> bool)
    ensures Filter([a] + t, p) == (if p(a) then [a] else []) + Filter(t, p)
  {
    assert ([a] + t)[0] == a;
    assert ([a] + t)[1..] == t;
  }

  /** Inserting `x` puts it ahead of every element it is tied with. */
  lemma {:induction false} InsertFilter<T(!new)>(x: T, s: seq<T>, le: (T, T) -> bool, p: T -> bool)
    requires Total(le) && Transitive(le)
    requires Sorted(s, le)
    requires Tied(p, le)
    ensures Filter(Insert(x, s, le), p) == (if p(x) then [x] else []) + Filter(s, p)
  {
    if |s| == 0 {
      FilterCons(x, [], p);
      assert [x] + [] == [x];
    } else if le(x, s[0]) {
      FilterCons(x, s, p);
    } else {
      var tail := s[1..];
      assert s == [s[0]] + tail;
      assert Sorted(tail, le) by {
        forall i | 0 < i < |tail| ensures le(tail[i - 1], tail[i]) {
          assert tail[i - 1] == s[i] && tail[i] == s[i + 1];
        }
      }
      InsertFilter(x, tail, le, p);
      FilterCons(s[0], Insert(x, tail, le), p);
      FilterCons(s[0], tail, p);
      assert !(p(x) && p(s[0]));
    }
  }

  /**
   Stability: for any class of tied elements, the sorted sequence lists that
   class in the same order as the input.
   */
  lemma {:induction false} SortByStable<T(!new)>(s: seq<T>, le: (T, T) -> bool, p: T -> bool)
    requires Total(le) && Transitive(le)
    requires Tied(p, le)
    ensures Filter(SortBy(s, le), p) == Filter(s, p)
  {
    if |s| > 0 {
      SortByStable(s[1..], le, p);
      InsertFilter(s[0], SortBy(s[1..], le), le, p);
    }
  }
}
