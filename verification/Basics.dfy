/** Bytes, text, results, and the few facts about sequences, powers and orders that
    several components rest on. A text is represented by its UTF-8 bytes. */
module Basics {
  type Byte = x: int | 0 <= x < 0x100
  type Text = seq<Byte>

  datatype Option<+T> = None | Some(value: T)

  datatype Result<+T, +E> = Ok(value: T) | Err(error: E)

  const U32_LIMIT: nat := 0x1_0000_0000
  const U64_LIMIT: nat := 0x1_0000_0000_0000_0000

  // ----- Sequences without repetition -----

  ghost predicate NoDuplicates<T>(s: seq<T>) {
    forall i, j :: 0 <= i < j < |s| ==> s[i] != s[j]
  }

  function Elements<T>(s: seq<T>): set<T> {
    set x | x in s
  }

  function Repeat<T>(x: T, n: nat): (r: seq<T>)
    ensures |r| == n && forall k :: 0 <= k < n ==> r[k] == x
  {
    seq(n, _ => x)
  }

  lemma NoDuplicatesConcat<T>(a: seq<T>, b: seq<T>)
    requires NoDuplicates(a) && NoDuplicates(b) && forall x :: x in a ==> x !in b
    ensures NoDuplicates(a + b)
  {
    forall i, j | 0 <= i < j < |a + b|
      ensures (a + b)[i] != (a + b)[j]
    {
      if i < |a| <= j {
        assert a[i] in a && b[j - |a|] in b;
      }
    }
  }

  /** Counting the distinct elements decides whether a sequence repeats itself. */
  lemma {:induction false} DistinctCount<T>(s: seq<T>)
    ensures |Elements(s)| <= |s|
    ensures |Elements(s)| == |s| <==> NoDuplicates(s)
  {
    if s != [] {
      var init, last := s[..|s| - 1], s[|s| - 1];
      DistinctCount(init);
      assert s == init + [last];
      assert Elements(s) == Elements(init) + {last};
      if last in init {
        var k :| 0 <= k < |init| && init[k] == last;
        assert Elements(s) == Elements(init);
        assert s[k] == s[|s| - 1];
      } else {
        assert |Elements(s)| == |Elements(init)| + 1;
      }
    }
  }

  /** Pigeonhole: as many distinct elements as a finite set offers use all of it. */
  lemma Pigeonhole<T>(s: seq<T>, universe: set<T>)
    requires NoDuplicates(s) && |s| == |universe|
    requires forall x :: x in s ==> x in universe
    ensures Elements(s) == universe
  {
    DistinctCount(s);
    SubsetOfSameSize(Elements(s), universe);
  }

  lemma SubsetSize<T>(a: set<T>, b: set<T>)
    requires a <= b
    ensures |a| <= |b|
  {
    assert |b - a| + |a * b| == |b|;
    assert a * b == a;
  }

  lemma SubsetOfSameSize<T>(a: set<T>, b: set<T>)
    requires a <= b && |a| == |b|
    ensures a == b
  {
    assert b == a + (b - a);
    assert |b| == |a| + |b - a|;
    assert b - a == {};
  }

  // ----- Cartesian products, in the order of two nested loops -----

  function Row<A, B>(a: A, bs: seq<B>): (r: seq<(A, B)>)
    ensures |r| == |bs|
    ensures forall k :: 0 <= k < |bs| ==> r[k] == (a, bs[k])
  {
    seq(|bs|, k requires 0 <= k < |bs| => (a, bs[k]))
  }

  function Product<A, B>(xs: seq<A>, ys: seq<B>): seq<(A, B)> {
    if xs == [] then [] else Row(xs[0], ys) + Product(xs[1..], ys)
  }

  lemma {:induction false} ProductFacts<A, B>(xs: seq<A>, ys: seq<B>)
    ensures |Product(xs, ys)| == |xs| * |ys|
    ensures forall p :: p in Product(xs, ys) <==> p.0 in xs && p.1 in ys
    ensures NoDuplicates(xs) && NoDuplicates(ys) ==> NoDuplicates(Product(xs, ys))
  {
    if xs != [] {
      var row, rest := Row(xs[0], ys), Product(xs[1..], ys);
      ProductFacts(xs[1..], ys);
      assert |xs| * |ys| == |ys| + (|xs| - 1) * |ys|;
      forall p
        ensures p in Product(xs, ys) <==> p.0 in xs && p.1 in ys
      {
        assert p in Product(xs, ys) <==> p in row || p in rest;
        assert p in row <==> p.0 == xs[0] && p.1 in ys by {
          if p.0 == xs[0] && p.1 in ys {
            var k :| 0 <= k < |ys| && ys[k] == p.1;
            assert row[k] == p;
          }
        }
        assert xs == [xs[0]] + xs[1..];
      }
      if NoDuplicates(xs) && NoDuplicates(ys) {
        assert NoDuplicates(rest);
        assert forall k :: 0 <= k < |rest| ==> rest[k] in rest && rest[k].0 in xs[1..];
      }
    }
  }

  /** Position of a pair in the product: row by row. */
  lemma {:induction false} ProductAt<A, B>(xs: seq<A>, ys: seq<B>, i: nat, j: nat)
    requires i < |xs| && j < |ys|
    ensures i * |ys| + j < |Product(xs, ys)|
    ensures Product(xs, ys)[i * |ys| + j] == (xs[i], ys[j])
  {
    if i > 0 {
      ProductAt(xs[1..], ys, i - 1, j);
      assert i * |ys| + j == |ys| + ((i - 1) * |ys| + j);
    }
  }

  // ----- Powers -----

  function Pow(b: nat, e: nat): nat {
    if e == 0 then 1 else b * Pow(b, e - 1)
  }

  function Times(a: nat, b: nat): nat {
    a * b
  }

  lemma {:induction false} PowPositive(b: nat, e: nat)
    requires b >= 1
    ensures Pow(b, e) >= 1
  {
    if e > 0 {
      PowPositive(b, e - 1);
      assert b * Pow(b, e - 1) >= 1 * Pow(b, e - 1) by {
        MulMonotone(1, b, Pow(b, e - 1));
      }
    }
  }

  lemma MulMonotone(a: nat, b: nat, c: nat)
    requires a <= b
    ensures a * c <= b * c
  {
    assert b * c == a * c + (b - a) * c;
  }

  /** With at least two choices, trying every choice of every cell once costs no more
      than trying every combination. */
  lemma {:induction false} LinearBelowPower(cells: nat, choices: nat)
    requires choices >= 2 && cells >= 1
    ensures cells * choices <= Pow(choices, cells)
  {
    if cells == 1 {
      assert Pow(choices, 1) == choices * Pow(choices, 0);
    } else {
      LinearBelowPower(cells - 1, choices);
      var p := Pow(choices, cells - 1);
      assert (cells - 1) * choices >= cells - 1 + cells - 1 by {
        MulMonotone(2, choices, cells - 1);
      }
      assert p >= cells;
      MulMonotone(cells, p, choices);
      assert choices * p == p * choices;
    }
  }

  // ----- Text order (byte by byte, as Rust compares str) -----

  predicate TextLess(a: Text, b: Text) {
    b != [] && (a == [] || a[0] < b[0] || (a[0] == b[0] && TextLess(a[1..], b[1..])))
  }

  lemma {:induction false} TextLessTransitive(a: Text, b: Text, c: Text)
    requires TextLess(a, b) && TextLess(b, c)
    ensures TextLess(a, c)
  {
    if a != [] && a[0] == b[0] && b[0] == c[0] {
      TextLessTransitive(a[1..], b[1..], c[1..]);
    }
  }

  lemma {:induction false} TextLessTotal(a: Text, b: Text)
    ensures TextLess(a, b) || a == b || TextLess(b, a)
    ensures !(TextLess(a, b) && (a == b || TextLess(b, a)))
  {
    if a != [] && b != [] && a[0] == b[0] {
      TextLessTotal(a[1..], b[1..]);
      assert a == [a[0]] + a[1..] && b == [b[0]] + b[1..];
    }
  }

  /** The order by the first byte in which two texts differ, a proper prefix coming first. */
  ghost predicate FirstDifference(a: Text, b: Text) {
    a < b || exists k :: 0 <= k < |a| && k < |b| && a[..k] == b[..k] && a[k] < b[k]
  }

  lemma {:induction false} TextLessMeans(a: Text, b: Text)
    ensures TextLess(a, b) <==> FirstDifference(a, b)
  {
    if a != [] && b != [] {
      TextLessMeans(a[1..], b[1..]);
      assert a == [a[0]] + a[1..] && b == [b[0]] + b[1..];
      if a[0] == b[0] {
        DifferenceBehind(a, b);
      } else if a[0] < b[0] {
        assert a[..0] == b[..0];
      } else {
        assert forall k :: 0 < k <= |a| && k <= |b| ==> a[..k][0] != b[..k][0];
      }
    }
  }

  lemma DifferenceBehind(a: Text, b: Text)
    requires a != [] && b != [] && a[0] == b[0]
    ensures FirstDifference(a, b) <==> FirstDifference(a[1..], b[1..])
  {
    assert a == [a[0]] + a[1..] && b == [b[0]] + b[1..];
    assert a < b <==> a[1..] < b[1..];
    if k :| 0 <= k < |a| && k < |b| && a[..k] == b[..k] && a[k] < b[k] {
      assert k > 0 && a[1..][..k - 1] == a[..k][1..] && b[1..][..k - 1] == b[..k][1..];
      assert a[1..][k - 1] < b[1..][k - 1];
    }
    if k :| 0 <= k < |a[1..]| && k < |b[1..]| && a[1..][..k] == b[1..][..k] && a[1..][k] < b[1..][k] {
      assert a[..k + 1] == [a[0]] + a[1..][..k] && b[..k + 1] == [b[0]] + b[1..][..k];
      assert a[k + 1] < b[k + 1];
    }
  }
}
