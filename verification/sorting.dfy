/** A stable insertion sort over a "ranks strictly before" relation.

    It stands for the two orderings the application relies on: the
    JavaScript `Array.prototype.sort` of subjects in the timetable generator
    (stable since ES2019) and Prisma's `orderBy` on attendance dates. For a
    strict weak order the stable sorted permutation of a sequence is unique,
    so this one definition describes both. */
module Sorting {

  /** `before` is a strict weak order: asymmetric, and "not before" is
      transitive (so that "neither before the other" is an equivalence). */
  ghost predicate StrictWeakOrder<T(!new)>(before: (T, T) -> bool) {
    && (forall a, b :: before(a, b) ==> !before(b, a))
    && (forall a, b, c :: !before(a, b) && !before(b, c) ==> !before(a, c))
  }

  /** No later element ranks strictly before an earlier one. */
  ghost predicate Sorted<T>(s: seq<T>, before: (T, T) -> bool) {
    forall i, j :: 0 <= i < j < |s| ==> !before(s[j], s[i])
  }

  predicate Equivalent<T>(before: (T, T) -> bool, a: T, b: T) {
    !before(a, b) && !before(b, a)
  }

  /** The elements of `s` ranked level with `y`, in their order in `s`. */
  function Level<T>(s: seq<T>, before: (T, T) -> bool, y: T): (r: seq<T>)
    ensures |r| <= |s|
  {
    if |s| == 0 then []
    else (if Equivalent(before, s[0], y) then [s[0]] else []) + Level(s[1..], before, y)
  }

  /** Inserts `x` in front of the first element that does not rank strictly
      before it. */
  function Insert<T>(x: T, t: seq<T>, before: (T, T) -> bool): (r: seq<T>)
    ensures multiset(r) == multiset(t) + multiset{x}
    ensures |r| == |t| + 1
  {
    if |t| == 0 then [x]
    else if before(t[0], x) then
      assert t == [t[0]] + t[1..];
      [t[0]] + Insert(x, t[1..], before)
    else [x] + t
  }

  function Sort<T>(s: seq<T>, before: (T, T) -> bool): (r: seq<T>)
    ensures multiset(r) == multiset(s)
    ensures |r| == |s|
  {
    if |s| == 0 then []
    else
      assert s == [s[0]] + s[1..];
      Insert(s[0], Sort(s[1..], before), before)
  }

  /** The elements after inserting are `x` and those of `t`. */
  lemma {:induction false} InsertMembers<T>(x: T, t: seq<T>, before: (T, T) -> bool)
    ensures forall y :: y in Insert(x, t, before) <==> y == x || y in t
  {
    if |t| > 0 && before(t[0], x) {
      InsertMembers(x, t[1..], before);
      assert t == [t[0]] + t[1..];
    }
  }

  /** Putting in front of a sorted sequence an element none of its elements
      ranks before keeps it sorted. */
  lemma ConsSorted<T>(h: T, t: seq<T>, before: (T, T) -> bool)
    requires Sorted(t, before)
    requires forall y :: y in t ==> !before(y, h)
    ensures Sorted([h] + t, before)
  {
    var r := [h] + t;
    forall i, j | 0 <= i < j < |r|
      ensures !before(r[j], r[i])
    {
      assert r[j] == t[j - 1];
      if i > 0 {
        assert r[i] == t[i - 1];
      }
    }
  }

  lemma {:induction false} InsertSorted<T(!new)>(x: T, t: seq<T>, before: (T, T) -> bool)
    requires StrictWeakOrder(before)
    requires Sorted(t, before)
    ensures Sorted(Insert(x, t, before), before)
  {
    if |t| == 0 {
    } else if before(t[0], x) {
      var rest := Insert(x, t[1..], before);
      InsertSorted(x, t[1..], before);
      InsertMembers(x, t[1..], before);
      forall y | y in rest
        ensures !before(y, t[0])
      {
        if y != x {
          var k :| 0 <= k < |t[1..]| && t[1..][k] == y;
          assert t[k + 1] == y;
        }
      }
      ConsSorted(t[0], rest, before);
    } else {
      forall y | y in t
        ensures !before(y, x)
      {
        var k :| 0 <= k < |t| && t[k] == y;
        if k > 0 {
          assert !before(t[k], t[0]);
        }
      }
      ConsSorted(x, t, before);
    }
  }

  /** The sort returns its input ordered by `before`. */
  lemma {:induction false} SortSorted<T(!new)>(s: seq<T>, before: (T, T) -> bool)
    requires StrictWeakOrder(before)
    ensures Sorted(Sort(s, before), before)
  {
    if |s| > 0 {
      SortSorted(s[1..], before);
      InsertSorted(s[0], Sort(s[1..], before), before);
    }
  }

  /** In a sorted sequence no element left out of the first `n` ranks
      before one of them. */
  lemma SortedPrefixFirst<T>(s: seq<T>, before: (T, T) -> bool, n: nat)
    requires Sorted(s, before) && n <= |s|
    ensures forall x, i :: x in s && x !in s[..n] && 0 <= i < n ==> !before(x, s[i])
  {
    forall x, i | x in s && x !in s[..n] && 0 <= i < n
      ensures !before(x, s[i])
    {
      var k :| 0 <= k < |s| && s[k] == x;
      assert forall m :: 0 <= m < n ==> s[..n][m] == s[m] && s[..n][m] in s[..n];
    }
  }

  /** The sort keeps exactly the elements it is given. */
  lemma {:induction false} SortMembers<T>(s: seq<T>, before: (T, T) -> bool)
    ensures forall y :: y in Sort(s, before) <==> y in s
  {
    if |s| > 0 {
      SortMembers(s[1..], before);
      InsertMembers(s[0], Sort(s[1..], before), before);
      assert s == [s[0]] + s[1..];
    }
  }

  lemma {:induction false} InsertStable<T(!new)>(x: T, t: seq<T>, before: (T, T) -> bool, y: T)
    requires StrictWeakOrder(before)
    ensures Level(Insert(x, t, before), before, y) == Level([x] + t, before, y)
  {
    if |t| == 0 {
    } else if before(t[0], x) {
      var rest := Insert(x, t[1..], before);
      InsertStable(x, t[1..], before, y);
      assert ([t[0]] + rest)[1..] == rest;
      assert ([x] + t[1..])[1..] == t[1..];
      assert ([x] + t)[1..] == t;
      // x and t[0] cannot both be level with y: that would make them level
      // with each other, yet t[0] ranks strictly before x.
    } else {
    }
  }

  /** Stability: elements ranked level with each other keep their input
      order. */
  lemma {:induction false} SortStable<T(!new)>(s: seq<T>, before: (T, T) -> bool, y: T)
    requires StrictWeakOrder(before)
    ensures Level(Sort(s, before), before, y) == Level(s, before, y)
  {
    if |s| > 0 {
      var rest := Sort(s[1..], before);
      InsertStable(s[0], rest, before, y);
      SortStable(s[1..], before, y);
      assert ([s[0]] + rest)[1..] == rest;
    }
  }

  /** Keys pairwise distinct along the sequence. */
  ghost predicate DistinctBy<T, K>(s: seq<T>, key: T -> K) {
    forall i, j :: 0 <= i < j < |s| ==> key(s[i]) != key(s[j])
  }

  /** Putting in front of a sequence with distinct keys an element whose
      key none of its elements has keeps the keys distinct. */
  lemma ConsDistinct<T(!new), K>(h: T, t: seq<T>, key: T -> K)
    requires DistinctBy(t, key)
    requires forall y :: y in t ==> key(y) != key(h)
    ensures DistinctBy([h] + t, key)
  {
    var r := [h] + t;
    forall i, j | 0 <= i < j < |r|
      ensures key(r[i]) != key(r[j])
    {
      assert r[j] == t[j - 1];
      if i > 0 {
        assert r[i] == t[i - 1];
      }
    }
  }

  lemma {:induction false} InsertDistinct<T(!new), K>(x: T, t: seq<T>, before: (T, T) -> bool, key: T -> K)
    requires DistinctBy(t, key)
    requires forall j :: 0 <= j < |t| ==> key(t[j]) != key(x)
    ensures DistinctBy(Insert(x, t, before), key)
  {
    if |t| > 0 && before(t[0], x) {
      var rest := Insert(x, t[1..], before);
      InsertDistinct(x, t[1..], before, key);
      InsertMembers(x, t[1..], before);
      forall y | y in rest
        ensures key(y) != key(t[0])
      {
        if y != x {
          var k :| 0 <= k < |t[1..]| && t[1..][k] == y;
          assert t[k + 1] == y;
        }
      }
      ConsDistinct(t[0], rest, key);
    } else if |t| > 0 {
      forall y | y in t
        ensures key(y) != key(x)
      {
        var k :| 0 <= k < |t| && t[k] == y;
      }
      ConsDistinct(x, t, key);
    }
  }

  /** Sorting never makes two elements with distinct keys share one. */
  lemma {:induction false} SortDistinct<T(!new), K>(s: seq<T>, before: (T, T) -> bool, key: T -> K)
    requires DistinctBy(s, key)
    ensures DistinctBy(Sort(s, before), key)
  {
    if |s| > 0 {
      var rest := Sort(s[1..], before);
      assert DistinctBy(s[1..], key) by {
        forall i, j | 0 <= i < j < |s[1..]|
          ensures key(s[1..][i]) != key(s[1..][j])
        {
          assert s[1..][i] == s[i + 1] && s[1..][j] == s[j + 1];
        }
      }
      SortDistinct(s[1..], before, key);
      forall j | 0 <= j < |rest|
        ensures key(rest[j]) != key(s[0])
      {
        assert rest[j] in multiset(rest);
        assert rest[j] in multiset(s[1..]);
        var k :| 0 <= k < |s[1..]| && s[1..][k] == rest[j];
        assert s[k + 1] == rest[j];
      }
      InsertDistinct(s[0], rest, before, key);
    }
  }

  /** Sum of `f` over the sequence. */
  function SumOf<T>(s: seq<T>, f: T -> int): int {
    if |s| == 0 then 0 else f(s[0]) + SumOf(s[1..], f)
  }

  lemma {:induction false} InsertSum<T>(x: T, t: seq<T>, before: (T, T) -> bool, f: T -> int)
    ensures SumOf(Insert(x, t, before), f) == f(x) + SumOf(t, f)
  {
    if |t| > 0 && before(t[0], x) {
      InsertSum(x, t[1..], before, f);
      assert ([t[0]] + Insert(x, t[1..], before))[1..] == Insert(x, t[1..], before);
    } else if |t| > 0 {
      assert ([x] + t)[1..] == t;
    }
  }

  /** A sum over the sequence does not depend on the order the sort gives. */
  lemma {:induction false} SortSum<T>(s: seq<T>, before: (T, T) -> bool, f: T -> int)
    ensures SumOf(Sort(s, before), f) == SumOf(s, f)
  {
    if |s| > 0 {
      SortSum(s[1..], before, f);
      InsertSum(s[0], Sort(s[1..], before), before, f);
    }
  }
}
