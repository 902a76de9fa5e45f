/**
 * Ordering used by the reports: LINQ's `OrderBy`/`OrderByDescending`, as an
 * insertion sort under a total preorder that keeps ties in input order, and
 * the ordinal order on strings.
 */
module Sorting {

  /** `leq` compares every pair and is transitive. */
  ghost predicate IsTotalPreorder<T(!new)>(leq: (T, T) -> bool) {
    && (forall a, b :: leq(a, b) || leq(b, a))
    && (forall a, b, c :: leq(a, b) && leq(b, c) ==> leq(a, c))
  }

  predicate SortedBy<T>(s: seq<T>, leq: (T, T) -> bool) {
    forall i, j :: 0 <= i < j < |s| ==> leq(s[i], s[j])
  }

  /** Put `x` before the first element it does not exceed. */
  function Insert<T>(x: T, s: seq<T>, leq: (T, T) -> bool): (r: seq<T>)
    ensures multiset(r) == multiset(s) + multiset{x}
    ensures |r| == |s| + 1
  {
    if s == [] || leq(x, s[0]) then [x] + s
    else
      assert s == [s[0]] + s[1..];
      [s[0]] + Insert(x, s[1..], leq)
  }

  /** Insertion sort: a permutation of the input. */
  function SortBy<T>(s: seq<T>, leq: (T, T) -> bool): (r: seq<T>)
    ensures multiset(r) == multiset(s)
    ensures |r| == |s|
  {
    if s == [] then []
    else
      assert s == [s[0]] + s[1..];
      Insert(s[0], SortBy(s[1..], leq), leq)
  }

  lemma {:induction false} InsertSorted<T(!new)>(x: T, s: seq<T>, leq: (T, T) -> bool)
    requires IsTotalPreorder(leq) && SortedBy(s, leq)
    ensures SortedBy(Insert(x, s, leq), leq)
  {
    if s != [] && !leq(x, s[0]) {
      InsertSorted(x, s[1..], leq);
      var r := Insert(x, s, leq);
      var tail := Insert(x, s[1..], leq);
      assert r == [s[0]] + tail;
      forall k | 0 <= k < |tail| ensures leq(s[0], tail[k]) {
        assert tail[k] in multiset(tail);
        assert tail[k] == x || tail[k] in multiset(s[1..]);
        if tail[k] != x {
          var m :| 0 <= m < |s[1..]| && s[1..][m] == tail[k];
          assert s[m + 1] == tail[k];
        }
      }
    }
  }

  /** The result of `SortBy` is sorted. */
  lemma {:induction false} SortBySorted<T(!new)>(s: seq<T>, leq: (T, T) -> bool)
    requires IsTotalPreorder(leq)
    ensures SortedBy(SortBy(s, leq), leq)
  {
    if s != [] {
      SortBySorted(s[1..], leq);
      InsertSorted(s[0], SortBy(s[1..], leq), leq);
    }
  }

  /**
   * Elements that `leq` ranks equal (ties) are in the order `tie` gives them.
   * With `tie` the order in some earlier sequence, this is stability.
   */
  predicate TiesOrdered<T>(s: seq<T>, leq: (T, T) -> bool, tie: (T, T) -> bool) {
    forall i, j :: 0 <= i < j < |s| && leq(s[i], s[j]) && leq(s[j], s[i]) ==> tie(s[i], s[j])
  }

  /** `x` goes before every element it ties with. */
  lemma {:induction false} InsertKeepsTies<T>(x: T, s: seq<T>, leq: (T, T) -> bool, tie: (T, T) -> bool)
    requires TiesOrdered(s, leq, tie)
    requires forall k :: 0 <= k < |s| && leq(x, s[k]) && leq(s[k], x) ==> tie(x, s[k])
    ensures TiesOrdered(Insert(x, s, leq), leq, tie)
  {
    var r := Insert(x, s, leq);
    if s == [] || leq(x, s[0]) {
      forall i, j | 0 <= i < j < |r| && leq(r[i], r[j]) && leq(r[j], r[i]) ensures tie(r[i], r[j]) {
        assert r[j] == s[j - 1];
        if i > 0 {
          assert r[i] == s[i - 1];
        }
      }
    } else {
      var rest := s[1..];
      InsertKeepsTies(x, rest, leq, tie);
      var tail := Insert(x, rest, leq);
      assert r == [s[0]] + tail;
      forall i, j | 0 <= i < j < |r| && leq(r[i], r[j]) && leq(r[j], r[i]) ensures tie(r[i], r[j]) {
        if i == 0 {
          assert tail[j - 1] in multiset(tail);
          assert r[j] != x;
          assert r[j] in multiset(rest);
          var m :| 0 <= m < |rest| && rest[m] == r[j];
          assert s[m + 1] == r[j];
        } else {
          assert r[i] == tail[i - 1] && r[j] == tail[j - 1];
        }
      }
    }
  }

  /** `SortBy` is stable: ties keep whatever order the input gave them. */
  lemma {:induction false} SortByKeepsTies<T>(s: seq<T>, leq: (T, T) -> bool, tie: (T, T) -> bool)
    requires TiesOrdered(s, leq, tie)
    ensures TiesOrdered(SortBy(s, leq), leq, tie)
  {
    if s != [] {
      var rest := s[1..];
      assert TiesOrdered(rest, leq, tie) by {
        forall i, j | 0 <= i < j < |rest| && leq(rest[i], rest[j]) && leq(rest[j], rest[i])
          ensures tie(rest[i], rest[j])
        {
          assert rest[i] == s[i + 1] && rest[j] == s[j + 1];
        }
      }
      SortByKeepsTies(rest, leq, tie);
      var u := SortBy(rest, leq);
      forall k | 0 <= k < |u| && leq(s[0], u[k]) && leq(u[k], s[0]) ensures tie(s[0], u[k]) {
        assert u[k] in multiset(rest);
        var m :| 0 <= m < |rest| && rest[m] == u[k];
        assert s[m + 1] == u[k];
      }
      InsertKeepsTies(s[0], u, leq, tie);
    }
  }

  /** The position of the first `x` in `s`, or `|s|` when there is none. */
  function FirstIndex<T(==)>(s: seq<T>, x: T): (r: nat)
    ensures r <= |s|
    ensures r < |s| ==> s[r] == x
    ensures forall i :: 0 <= i < r ==> s[i] != x
  {
    if s == [] then 0
    else if s[0] == x then 0
    else
      var r := 1 + FirstIndex(s[1..], x);
      assert forall i :: 1 <= i < r ==> s[i] == s[1..][i - 1];
      r
  }

  /** The order of the elements in `s`. */
  function InputOrder<T(==)>(s: seq<T>): (T, T) -> bool {
    (a: T, b: T) => FirstIndex(s, a) < FirstIndex(s, b)
  }

  /** Sorting a sequence without repetitions keeps ties in input order. */
  lemma SortByStable<T>(s: seq<T>, leq: (T, T) -> bool)
    requires Distinct(s)
    ensures TiesOrdered(SortBy(s, leq), leq, InputOrder(s))
  {
    forall i, j | 0 <= i < j < |s| ensures FirstIndex(s, s[i]) == i && FirstIndex(s, s[j]) == j {
    }
    SortByKeepsTies(s, leq, InputOrder(s));
  }

  predicate Distinct<T(==)>(s: seq<T>) {
    forall i, j :: 0 <= i < j < |s| ==> s[i] != s[j]
  }

  lemma {:induction false} DistinctOnce<T>(s: seq<T>, x: T)
    requires Distinct(s)
    ensures multiset(s)[x] <= 1
  {
    if s != [] {
      DistinctOnce(s[1..], x);
      assert s == [s[0]] + s[1..];
      if x == s[0] {
        assert x !in s[1..];
      }
    }
  }

  /** A rearrangement of a sequence without repetitions has none either. */
  lemma PermutationKeepsDistinct<T>(a: seq<T>, b: seq<T>)
    requires multiset(a) == multiset(b) && Distinct(b)
    ensures Distinct(a)
  {
    forall i, j | 0 <= i < j < |a| ensures a[i] != a[j] {
      if a[i] == a[j] {
        assert a == a[..i] + [a[i]] + a[i + 1..j] + [a[j]] + a[j + 1..];
        assert multiset(a)[a[i]] >= 2;
        DistinctOnce(b, a[i]);
        assert false;
      }
    }
  }

  /** Ordinal comparison of strings: character by character, by character value. */
  predicate OrdinalLeq(a: string, b: string) {
    a == [] || (b != [] && (a[0] < b[0] || (a[0] == b[0] && OrdinalLeq(a[1..], b[1..]))))
  }

  lemma {:induction false} OrdinalTotal(a: string, b: string)
    ensures OrdinalLeq(a, b) || OrdinalLeq(b, a)
  {
    if a != [] && b != [] && a[0] == b[0] {
      OrdinalTotal(a[1..], b[1..]);
    }
  }

  lemma {:induction false} OrdinalTransitive(a: string, b: string, c: string)
    requires OrdinalLeq(a, b) && OrdinalLeq(b, c)
    ensures OrdinalLeq(a, c)
  {
    if a != [] && a[0] == b[0] && b[0] == c[0] {
      OrdinalTransitive(a[1..], b[1..], c[1..]);
    }
  }
}
