/**
 * The sample pairs of the distance engine (software/src/main.py): every
 * ordered pair `itertools.product(ids, repeat=2)`, the unordered pairs
 * `itertools.combinations_with_replacement(ids, 2)`, and the filter that
 * keeps `sample1 <= sample2`.
 */
module SamplePairs {
  import opened StringOrder

  type Pair = (string, string)

  /** The pairs `(x, y)` for `y` in `ys`, in order. */
  function RowPairs(x: string, ys: seq<string>): (r: seq<Pair>)
    ensures |r| == |ys|
    ensures forall j :: 0 <= j < |ys| ==> r[j] == (x, ys[j])
  {
    seq(|ys|, j requires 0 <= j < |ys| => (x, ys[j]))
  }

  /** `itertools.product(xs, ys)`. */
  function Product(xs: seq<string>, ys: seq<string>): seq<Pair> {
    if xs == [] then [] else RowPairs(xs[0], ys) + Product(xs[1..], ys)
  }

  /** `itertools.combinations_with_replacement(xs, 2)`. */
  function CombinationsWithReplacement(xs: seq<string>): seq<Pair> {
    if xs == [] then [] else RowPairs(xs[0], xs) + CombinationsWithReplacement(xs[1..])
  }

  /** Strictly increasing under Python's tuple order. */
  predicate PairSorted(ps: seq<Pair>) {
    forall i, j :: 0 <= i < j < |ps| ==> PairLess(ps[i], ps[j])
  }

  lemma PairLessTransitive(p: Pair, q: Pair, r: Pair)
    requires PairLess(p, q) && PairLess(q, r)
    ensures PairLess(p, r)
  {
    if Less(p.0, q.0) && Less(q.0, r.0) {
      LessTransitive(p.0, q.0, r.0);
    } else if p.0 == q.0 && q.0 == r.0 {
      LessTransitive(p.1, q.1, r.1);
    }
  }

  lemma PairLessAsymmetric(p: Pair, q: Pair)
    requires PairLess(p, q)
    ensures !PairLess(q, p) && p != q
  {
    if Less(p.0, q.0) {
      LessAsymmetric(p.0, q.0);
    } else {
      LessAsymmetric(p.1, q.1);
    }
  }

  lemma RowPairsSorted(x: string, ys: seq<string>)
    requires Sorted(ys)
    ensures PairSorted(RowPairs(x, ys))
  {
  }

  /** Concatenating two sorted runs, every element of the first below every element of the second. */
  lemma ConcatSorted(a: seq<Pair>, b: seq<Pair>)
    requires PairSorted(a) && PairSorted(b)
    requires forall p, q :: p in a && q in b ==> PairLess(p, q)
    ensures PairSorted(a + b)
  {
    forall i, j | 0 <= i < j < |a + b| ensures PairLess((a + b)[i], (a + b)[j]) {
      if j < |a| {
      } else if i >= |a| {
        assert (a + b)[i] == b[i - |a|] && (a + b)[j] == b[j - |a|];
      } else {
        assert (a + b)[i] in a && (a + b)[j] in b;
      }
    }
  }

  lemma {:induction false} ProductMembers(xs: seq<string>, ys: seq<string>)
    ensures forall p :: p in Product(xs, ys) <==> p.0 in xs && p.1 in ys
  {
    if xs != [] {
      ProductMembers(xs[1..], ys);
      forall p ensures p in Product(xs, ys) <==> p.0 in xs && p.1 in ys {
        assert p in RowPairs(xs[0], ys) <==> p.0 == xs[0] && p.1 in ys by {
          if p.0 == xs[0] && p.1 in ys {
            var j :| 0 <= j < |ys| && ys[j] == p.1;
            assert RowPairs(xs[0], ys)[j] == p;
          }
        }
        assert p.0 in xs <==> p.0 == xs[0] || p.0 in xs[1..] by {
          assert xs == [xs[0]] + xs[1..];
        }
      }
    }
  }

  lemma {:induction false} ProductLength(xs: seq<string>, ys: seq<string>)
    ensures |Product(xs, ys)| == |xs| * |ys|
  {
    if xs != [] {
      ProductLength(xs[1..], ys);
      assert |xs| * |ys| == |ys| + (|xs| - 1) * |ys|;
    }
  }

  lemma {:induction false} ProductSorted(xs: seq<string>, ys: seq<string>)
    requires Sorted(xs) && Sorted(ys)
    ensures PairSorted(Product(xs, ys))
  {
    if xs != [] {
      ProductSorted(xs[1..], ys);
      ProductMembers(xs[1..], ys);
      RowPairsSorted(xs[0], ys);
      forall p, q | p in RowPairs(xs[0], ys) && q in Product(xs[1..], ys) ensures PairLess(p, q) {
        var j :| 0 <= j < |xs[1..]| && xs[1..][j] == q.0;
        assert xs[j + 1] == q.0;
      }
      ConcatSorted(RowPairs(xs[0], ys), Product(xs[1..], ys));
    }
  }

  lemma RowPairsMembers(x: string, ys: seq<string>, p: Pair)
    ensures p in RowPairs(x, ys) <==> p.0 == x && p.1 in ys
  {
    if p.0 == x && p.1 in ys {
      var j :| 0 <= j < |ys| && ys[j] == p.1;
      assert RowPairs(x, ys)[j] == p;
    }
  }

  /** The head of a sorted list is its least element. */
  lemma SortedHeadLeast(xs: seq<string>, y: string)
    requires Sorted(xs) && xs != [] && y in xs
    ensures LessEq(xs[0], y)
    ensures y != xs[0] ==> y in xs[1..] && Less(xs[0], y)
  {
    var j :| 0 <= j < |xs| && xs[j] == y;
    SortedIndexOrder(xs, 0, j);
    if j > 0 {
      assert xs[1..][j - 1] == y;
    }
  }

  lemma {:induction false} CombinationsMembers(xs: seq<string>)
    requires Sorted(xs)
    ensures forall p :: p in CombinationsWithReplacement(xs) <==> p.0 in xs && p.1 in xs && LessEq(p.0, p.1)
  {
    if xs != [] {
      var rest := xs[1..];
      CombinationsMembers(rest);
      assert xs == [xs[0]] + rest;
      forall p ensures p in CombinationsWithReplacement(xs) <==> p.0 in xs && p.1 in xs && LessEq(p.0, p.1) {
        RowPairsMembers(xs[0], xs, p);
        if p in RowPairs(xs[0], xs) {
          SortedHeadLeast(xs, p.1);
        }
        if p.0 in xs && p.1 in xs && LessEq(p.0, p.1) && p.0 != xs[0] {
          SortedHeadLeast(xs, p.0);
          if p.1 == xs[0] {
            LessAsymmetric(xs[0], p.0);
          }
          SortedHeadLeast(xs, p.1);
        }
      }
    }
  }

  lemma {:induction false} CombinationsSorted(xs: seq<string>)
    requires Sorted(xs)
    ensures PairSorted(CombinationsWithReplacement(xs))
  {
    if xs != [] {
      var rest := xs[1..];
      CombinationsSorted(rest);
      CombinationsMembers(rest);
      RowPairsSorted(xs[0], xs);
      forall p, q | p in RowPairs(xs[0], xs) && q in CombinationsWithReplacement(rest) ensures PairLess(p, q) {
        var j :| 0 <= j < |rest| && rest[j] == q.0;
        assert xs[j + 1] == q.0;
      }
      ConcatSorted(RowPairs(xs[0], xs), CombinationsWithReplacement(rest));
    }
  }

  lemma {:induction false} CombinationsLength(xs: seq<string>)
    ensures 2 * |CombinationsWithReplacement(xs)| == |xs| * (|xs| + 1)
  {
    if xs != [] {
      CombinationsLength(xs[1..]);
      assert |xs| * (|xs| + 1) == 2 * |xs| + (|xs| - 1) * |xs|;
    }
  }

  lemma CombinationsHead(xs: seq<string>)
    requires xs != []
    ensures CombinationsWithReplacement(xs)[0] == (xs[0], xs[0])
  {
  }

  /** The pairs `(a, b)` of `ps` with `a <= b`, in order. */
  function KeepOrdered(ps: seq<Pair>): (r: seq<Pair>)
    ensures forall p :: p in r <==> p in ps && LessEq(p.0, p.1)
  {
    if ps == [] then []
    else (if LessEq(ps[0].0, ps[0].1) then [ps[0]] else []) + KeepOrdered(ps[1..])
  }

  lemma {:induction false} KeepOrderedSorted(ps: seq<Pair>)
    requires PairSorted(ps)
    ensures PairSorted(KeepOrdered(ps))
  {
    if ps != [] {
      KeepOrderedSorted(ps[1..]);
      var head := if LessEq(ps[0].0, ps[0].1) then [ps[0]] else [];
      forall p, q | p in head && q in KeepOrdered(ps[1..]) ensures PairLess(p, q) {
        var j :| 0 <= j < |ps[1..]| && ps[1..][j] == q;
        assert ps[j + 1] == q;
      }
      ConcatSorted(head, KeepOrdered(ps[1..]));
    }
  }

  /** Two strictly sorted sequences with the same elements are equal. */
  lemma {:induction false} SortedSame(a: seq<Pair>, b: seq<Pair>)
    requires PairSorted(a) && PairSorted(b)
    requires forall p :: p in a <==> p in b
    ensures a == b
  {
    if a != [] {
      assert a[0] in a;
    }
    if b != [] {
      assert b[0] in b;
    }
    if a != [] && b != [] {
      if a[0] != b[0] {
        var i :| 0 <= i < |b| && b[i] == a[0];
        var j :| 0 <= j < |a| && a[j] == b[0];
        assert i > 0 && j > 0;
        PairLessAsymmetric(b[0], a[0]);
      }
      assert a == [a[0]] + a[1..] && b == [b[0]] + b[1..];
      forall p ensures p in a[1..] <==> p in b[1..] {
        if p in a[1..] {
          var i :| 0 <= i < |a[1..]| && a[1..][i] == p;
          PairLessAsymmetric(a[0], a[i + 1]);
          assert p in a;
        }
        if p in b[1..] {
          var i :| 0 <= i < |b[1..]| && b[1..][i] == p;
          PairLessAsymmetric(b[0], b[i + 1]);
          assert p in b;
        }
      }
      SortedSame(a[1..], b[1..]);
    }
  }

  /**
   * Keeping the ordered pairs with `sample1 <= sample2` out of all ordered
   * pairs gives exactly the unordered pairs the engine computes, in the same
   * order.
   */
  lemma KeepOrderedProduct(ids: seq<string>)
    requires Sorted(ids)
    ensures KeepOrdered(Product(ids, ids)) == CombinationsWithReplacement(ids)
  {
    ProductSorted(ids, ids);
    ProductMembers(ids, ids);
    KeepOrderedSorted(Product(ids, ids));
    CombinationsSorted(ids);
    CombinationsMembers(ids);
    SortedSame(KeepOrdered(Product(ids, ids)), CombinationsWithReplacement(ids));
  }
}
