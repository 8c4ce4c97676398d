/** Stable sorting by a strict order, with what the callers need of it: the result is a
    permutation, strictly increasing when no two keys tie, and then the only such one. */
module Sorting {
  import opened Basics

  /** Places `x` behind every element it does not precede. */
  function Insert<T>(x: T, s: seq<T>, less: (T, T) -> bool): seq<T> {
    if s == [] then [x]
    else if less(x, s[0]) then [x] + s
    else [s[0]] + Insert(x, s[1..], less)
  }

  function Sort<T>(s: seq<T>, less: (T, T) -> bool): seq<T> {
    if s == [] then [] else Insert(s[|s| - 1], Sort(s[..|s| - 1], less), less)
  }

  ghost predicate Transitive<T(!new)>(less: (T, T) -> bool) {
    forall x, y, z :: less(x, y) && less(y, z) ==> less(x, z)
  }

  ghost predicate Asymmetric<T(!new)>(less: (T, T) -> bool) {
    forall x, y :: less(x, y) ==> !less(y, x)
  }

  ghost predicate Increasing<T>(s: seq<T>, less: (T, T) -> bool) {
    forall i, j :: 0 <= i < j < |s| ==> less(s[i], s[j])
  }

  /** No two positions hold equal keys. */
  ghost predicate NoTies<T>(s: seq<T>, less: (T, T) -> bool) {
    forall i, j :: 0 <= i < j < |s| ==> less(s[i], s[j]) || less(s[j], s[i])
  }

  lemma {:induction false} InsertPermutes<T>(x: T, s: seq<T>, less: (T, T) -> bool)
    ensures multiset(Insert(x, s, less)) == multiset{x} + multiset(s)
  {
    if s != [] {
      assert s == [s[0]] + s[1..];
      if !less(x, s[0]) {
        InsertPermutes(x, s[1..], less);
      }
    }
  }

  lemma {:induction false} SortPermutes<T>(s: seq<T>, less: (T, T) -> bool)
    ensures multiset(Sort(s, less)) == multiset(s)
  {
    if s != [] {
      hide Insert;
      var init := s[..|s| - 1];
      SortPermutes(init, less);
      InsertPermutes(s[|s| - 1], Sort(init, less), less);
      assert s == init + [s[|s| - 1]];
    }
  }

  lemma {:induction false} InsertIncreasing<T(!new)>(x: T, s: seq<T>, less: (T, T) -> bool)
    requires Transitive(less) && Increasing(s, less)
    requires forall y :: y in s ==> less(x, y) || less(y, x)
    ensures Increasing(Insert(x, s, less), less)
  {
    if s != [] && !less(x, s[0]) {
      var rest := Insert(x, s[1..], less);
      InsertIncreasing(x, s[1..], less);
      InsertPermutes(x, s[1..], less);
      forall j | 0 <= j < |rest|
        ensures less(s[0], rest[j])
      {
        assert rest[j] in multiset(rest);
        if rest[j] != x {
          var k :| 0 <= k < |s[1..]| && s[1..][k] == rest[j];
          assert less(s[0], s[k + 1]);
        }
      }
    } else if s != [] {
      assert forall j :: 0 < j < |s| ==> less(s[0], s[j]) && less(x, s[j]);
    }
  }

  lemma {:induction false} SortIncreasing<T(!new)>(s: seq<T>, less: (T, T) -> bool)
    requires Transitive(less) && NoTies(s, less)
    ensures Increasing(Sort(s, less), less)
  {
    if s != [] {
      var init, x := s[..|s| - 1], s[|s| - 1];
      SortIncreasing(init, less);
      SortPermutes(init, less);
      forall y | y in Sort(init, less)
        ensures less(x, y) || less(y, x)
      {
        assert y in multiset(Sort(init, less));
        var k :| 0 <= k < |init| && init[k] == y;
        assert less(s[k], s[|s| - 1]) || less(s[|s| - 1], s[k]);
      }
      InsertIncreasing(x, Sort(init, less), less);
    }
  }

  /** The least element of a multiset comes first in each of its increasing listings. */
  lemma SameHead<T(!new)>(a: seq<T>, b: seq<T>, less: (T, T) -> bool)
    requires Asymmetric(less) && Increasing(a, less) && Increasing(b, less)
    requires a != [] && b != [] && a[0] in b && b[0] in a
    ensures a[0] == b[0]
  {
    var k :| 0 <= k < |b| && b[k] == a[0];
    var j :| 0 <= j < |a| && a[j] == b[0];
  }

  /** A strictly increasing listing of a multiset is unique. */
  lemma {:induction false} IncreasingIsUnique<T(!new)>(a: seq<T>, b: seq<T>, less: (T, T) -> bool)
    requires Asymmetric(less) && Increasing(a, less) && Increasing(b, less)
    requires multiset(a) == multiset(b)
    ensures a == b
  {
    hide Asymmetric;
    assert |multiset(a)| == |a| && |multiset(b)| == |b|;
    if a != [] {
      assert a[0] in multiset(b) && b[0] in multiset(a);
      SameHead(a, b, less);
      MultisetTail(a);
      MultisetTail(b);
      IncreasingIsUnique(a[1..], b[1..], less);
      assert a == [a[0]] + a[1..] && b == [b[0]] + b[1..];
    }
  }

  lemma MultisetTail<T>(s: seq<T>)
    requires s != []
    ensures multiset(s[1..]) == multiset(s) - multiset{s[0]}
  {
    assert s == [s[0]] + s[1..];
  }

  // ----- Lists that may repeat themselves, under a total order -----

  ghost predicate Trichotomous<T(!new)>(less: (T, T) -> bool) {
    forall x, y :: less(x, y) || x == y || less(y, x)
  }

  ghost predicate TotalOrder<T(!new)>(less: (T, T) -> bool) {
    Transitive(less) && Asymmetric(less) && Trichotomous(less)
  }

  ghost predicate NonDecreasing<T>(s: seq<T>, less: (T, T) -> bool) {
    forall i, j :: 0 <= i < j < |s| ==> !less(s[j], s[i])
  }

  lemma {:induction false} InsertNonDecreasing<T(!new)>(x: T, s: seq<T>, less: (T, T) -> bool)
    requires TotalOrder(less) && NonDecreasing(s, less)
    ensures NonDecreasing(Insert(x, s, less), less)
  {
    if s != [] && !less(x, s[0]) {
      var rest := Insert(x, s[1..], less);
      InsertNonDecreasing(x, s[1..], less);
      InsertPermutes(x, s[1..], less);
      forall j | 0 <= j < |rest|
        ensures !less(rest[j], s[0])
      {
        assert rest[j] in multiset(rest);
        if rest[j] != x {
          var k :| 0 <= k < |s[1..]| && s[1..][k] == rest[j];
          assert !less(s[k + 1], s[0]);
        }
      }
    } else if s != [] {
      forall j | 0 <= j < |s|
        ensures !less(s[j], x)
      {
        assert less(x, s[0]) && (j > 0 ==> !less(s[j], s[0]));
      }
    }
  }

  lemma {:induction false} SortNonDecreasing<T(!new)>(s: seq<T>, less: (T, T) -> bool)
    requires TotalOrder(less)
    ensures NonDecreasing(Sort(s, less), less)
  {
    hide TotalOrder;
    if s != [] {
      SortNonDecreasing(s[..|s| - 1], less);
      InsertNonDecreasing(s[|s| - 1], Sort(s[..|s| - 1], less), less);
    }
  }

  lemma SameLeast<T(!new)>(a: seq<T>, b: seq<T>, less: (T, T) -> bool)
    requires TotalOrder(less) && NonDecreasing(a, less) && NonDecreasing(b, less)
    requires a != [] && b != [] && a[0] in b && b[0] in a
    ensures a[0] == b[0]
  {
    var k :| 0 <= k < |b| && b[k] == a[0];
    var j :| 0 <= j < |a| && a[j] == b[0];
    assert !less(a[0], b[0]) && !less(b[0], a[0]);
  }

  lemma {:induction false} NonDecreasingIsUnique<T(!new)>(a: seq<T>, b: seq<T>, less: (T, T) -> bool)
    requires TotalOrder(less) && NonDecreasing(a, less) && NonDecreasing(b, less)
    requires multiset(a) == multiset(b)
    ensures a == b
  {
    hide TotalOrder;
    assert |multiset(a)| == |a| && |multiset(b)| == |b|;
    if a != [] {
      assert a[0] in multiset(b) && b[0] in multiset(a);
      SameLeast(a, b, less);
      MultisetTail(a);
      MultisetTail(b);
      NonDecreasingIsUnique(a[1..], b[1..], less);
      assert a == [a[0]] + a[1..] && b == [b[0]] + b[1..];
    }
  }

  /** Sorting by a total order forgets the order it was given. */
  lemma SortForgetsOrder<T(!new)>(a: seq<T>, b: seq<T>, less: (T, T) -> bool)
    requires TotalOrder(less) && multiset(a) == multiset(b)
    ensures Sort(a, less) == Sort(b, less)
  {
    SortNonDecreasing(a, less);
    SortNonDecreasing(b, less);
    SortPermutes(a, less);
    SortPermutes(b, less);
    NonDecreasingIsUnique(Sort(a, less), Sort(b, less), less);
  }
}
