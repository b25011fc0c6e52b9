/**
 * `get_nclosest` of the time-series cloud-removal production script
 * (`decloud/production/crga_timeseries_processor.py`): the `n` products
 * temporally closest to a Sentinel-2 date, before it, after it or on either
 * side. Dates are whole seconds; a product is known by its file name.
 */
module NClosest {
  import opened PyDict

  /** The `period` argument: 'before', 'after', or anything else. */
  datatype Period = Before | After | Either

  /** Whether a product dated `date` is a candidate for `period`. */
  predicate Kept(period: Period, s2t: int, date: int) {
    match period
    case Before => date < s2t
    case After => date > s2t
    case Either => true
  }

  /** The time difference a candidate is ranked by. */
  function Delta(period: Period, s2t: int, date: int): int {
    match period
    case Before => s2t - date
    case After => date - s2t
    case Either => if date < s2t then s2t - date else date - s2t
  }

  /** The `candidates` dict: the kept products with their time difference, in the products' order. */
  function Candidates(products: Dict<string, int>, s2t: int, period: Period): Dict<string, int>
  {
    if |products| == 0 then []
    else
      var n := |products| - 1;
      var front := Candidates(products[..n], s2t, period);
      if Kept(period, s2t, products[n].1) then front + [(products[n].0, Delta(period, s2t, products[n].1))] else front
  }

  /**
   * A product is a candidate, with its time difference, exactly when the
   * period keeps its date; the time difference is never negative, and is
   * positive for 'before' and 'after'.
   */
  lemma {:induction false} CandidatesMeaning(products: Dict<string, int>, s2t: int, period: Period)
    ensures var c := Candidates(products, s2t, period);
      && (forall i :: 0 <= i < |products| && Kept(period, s2t, products[i].1)
            ==> (products[i].0, Delta(period, s2t, products[i].1)) in c)
      && (forall e :: e in c ==> exists i :: Yields(products, s2t, period, i, e))
      && (forall e :: e in c ==> e.1 >= 0 && (period != Either ==> e.1 > 0))
  {
    if |products| > 0 {
      var n := |products| - 1;
      var front := Candidates(products[..n], s2t, period);
      CandidatesMeaning(products[..n], s2t, period);
      var c := Candidates(products, s2t, period);
      assert forall e :: e in front ==> e in c;
      forall e | e in c
        ensures exists i :: Yields(products, s2t, period, i, e)
      {
        if e !in front {
          assert Yields(products, s2t, period, n, e);
        } else {
          var i :| Yields(products[..n], s2t, period, i, e);
          assert products[..n][i] == products[i];
          assert Yields(products, s2t, period, i, e);
        }
      }
      forall i | 0 <= i < |products| && Kept(period, s2t, products[i].1)
        ensures (products[i].0, Delta(period, s2t, products[i].1)) in c
      {
        if i < n {
          assert products[..n][i] == products[i];
        }
      }
    }
  }

  /** Product `i` is kept, and gives the candidate `e`. */
  predicate Yields(products: Dict<string, int>, s2t: int, period: Period, i: int, e: (string, int)) {
    0 <= i < |products| && Kept(period, s2t, products[i].1) && e == (products[i].0, Delta(period, s2t, products[i].1))
  }

  /** Non-decreasing time differences. */
  predicate Sorted(s: Dict<string, int>) {
    forall i, j :: 0 <= i < j < |s| ==> s[i].1 <= s[j].1
  }

  /** The items of `s` whose time difference is `d`, in order. */
  function WithDelta(s: Dict<string, int>, d: int): Dict<string, int>
  {
    if |s| == 0 then [] else (if s[0].1 == d then [s[0]] else []) + WithDelta(s[1..], d)
  }

  lemma {:induction false} WithDeltaAppend(a: Dict<string, int>, b: Dict<string, int>, d: int)
    ensures WithDelta(a + b, d) == WithDelta(a, d) + WithDelta(b, d)
  {
    if |a| == 0 {
      assert a + b == b;
    } else {
      var h := if a[0].1 == d then [a[0]] else [];
      assert (a + b)[0] == a[0] && (a + b)[1..] == a[1..] + b;
      WithDeltaAppend(a[1..], b, d);
      assert WithDelta(a + b, d) == h + WithDelta(a[1..] + b, d);
      assert WithDelta(a, d) == h + WithDelta(a[1..], d);
    }
  }

  /** No item of a sorted `s` whose first time difference exceeds `d` has difference `d`. */
  lemma {:induction false} WithDeltaAbove(s: Dict<string, int>, d: int)
    requires Sorted(s) && |s| > 0 && s[0].1 > d
    ensures WithDelta(s, d) == []
  {
    if |s| > 1 {
      assert s[1..][0] == s[1];
      WithDeltaAbove(s[1..], d);
    }
  }

  /** `x` placed after every item whose time difference is not larger. */
  function InsertByDelta(x: (string, int), s: Dict<string, int>): (r: Dict<string, int>)
    ensures |r| == |s| + 1
  {
    if |s| == 0 then [x]
    else if s[0].1 > x.1 then [x] + s
    else [s[0]] + InsertByDelta(x, s[1..])
  }

  lemma {:induction false} InsertByDeltaCount(x: (string, int), s: Dict<string, int>)
    ensures multiset(InsertByDelta(x, s)) == multiset(s) + multiset{x}
  {
    if |s| > 0 && s[0].1 <= x.1 {
      InsertByDeltaCount(x, s[1..]);
      assert s == [s[0]] + s[1..];
    }
  }

  lemma {:induction false} InsertByDeltaSorted(x: (string, int), s: Dict<string, int>)
    requires Sorted(s)
    ensures Sorted(InsertByDelta(x, s))
  {
    if |s| > 0 && s[0].1 <= x.1 {
      var r := InsertByDelta(x, s);
      var t := InsertByDelta(x, s[1..]);
      InsertByDeltaSorted(x, s[1..]);
      InsertByDeltaCount(x, s[1..]);
      assert r == [s[0]] + t;
      forall j | 0 < j < |r| ensures r[0].1 <= r[j].1 {
        assert r[j] == t[j - 1];
        assert t[j - 1] in multiset(t);
        if t[j - 1] != x {
          var m :| 0 <= m < |s[1..]| && s[1..][m] == t[j - 1];
          assert s[1..][m] == s[m + 1];
        }
      }
    }
  }

  lemma {:induction false} InsertByDeltaStable(x: (string, int), s: Dict<string, int>, d: int)
    requires Sorted(s)
    ensures WithDelta(InsertByDelta(x, s), d) == WithDelta(s, d) + (if x.1 == d then [x] else [])
  {
    var r := InsertByDelta(x, s);
    if |s| == 0 {
      assert WithDelta(r, d) == (if x.1 == d then [x] else []) + WithDelta([], d);
    } else if s[0].1 > x.1 {
      assert r[1..] == s;
      assert WithDelta(r, d) == (if x.1 == d then [x] else []) + WithDelta(s, d);
      if x.1 == d {
        WithDeltaAbove(s, d);
      }
    } else {
      var t := InsertByDelta(x, s[1..]);
      var h := if s[0].1 == d then [s[0]] else [];
      assert Sorted(s[1..]) by {
        forall i, j | 0 <= i < j < |s[1..]| ensures s[1..][i].1 <= s[1..][j].1 {
          assert s[1..][i] == s[i + 1] && s[1..][j] == s[j + 1];
        }
      }
      InsertByDeltaStable(x, s[1..], d);
      assert r[1..] == t && r[0] == s[0];
      assert WithDelta(r, d) == h + WithDelta(t, d);
      assert WithDelta(s, d) == h + WithDelta(s[1..], d);
    }
  }

  /** Python's stable sort by time difference, by insertion. */
  function SortByDelta(c: Dict<string, int>): (r: Dict<string, int>)
    ensures |r| == |c|
  {
    if |c| == 0 then [] else InsertByDelta(c[|c| - 1], SortByDelta(c[..|c| - 1]))
  }

  /**
   * The sort is a permutation, non-decreasing in time difference, and keeps
   * items of equal time difference in their original order.
   */
  lemma {:induction false} SortByDeltaFacts(c: Dict<string, int>)
    ensures var r := SortByDelta(c);
      && multiset(r) == multiset(c)
      && Sorted(r)
      && forall d :: WithDelta(r, d) == WithDelta(c, d)
  {
    if |c| > 0 {
      var n := |c| - 1;
      SortByDeltaFacts(c[..n]);
      InsertByDeltaCount(c[n], SortByDelta(c[..n]));
      InsertByDeltaSorted(c[n], SortByDelta(c[..n]));
      assert c == c[..n] + [c[n]];
      forall d ensures WithDelta(SortByDelta(c), d) == WithDelta(c, d) {
        InsertByDeltaStable(c[n], SortByDelta(c[..n]), d);
        WithDeltaAppend(c[..n], [c[n]], d);
        assert WithDelta([c[n]], d) == (if c[n].1 == d then [c[n]] else []) + WithDelta([], d);
      }
    }
  }

  /**
   * `heapq.nsmallest(n, candidates, key=candidates.get)`: the first `n` keys
   * of the candidates sorted by time difference, ties in dict order; none
   * when `n` is not positive.
   */
  function NSmallest(n: int, c: Dict<string, int>): seq<string>
  {
    if n <= 0 then []
    else
      var m := if n < |c| then n else |c|;
      Keys(SortByDelta(c)[..m])
  }

  /** `get_nclosest(n, s2t, product_dic, period)` */
  function GetNClosest(n: int, s2t: int, products: Dict<string, int>, period: Period): seq<string>
  {
    NSmallest(n, Candidates(products, s2t, period))
  }

  /**
   * The result holds `min(n, number of candidates)` product keys (none for
   * `n <= 0`): the first ones of the candidates in stable time-difference
   * order, so no candidate left out is closer than one selected, and every
   * one is a key of the products.
   */
  lemma NClosestMeaning(n: int, s2t: int, products: Dict<string, int>, period: Period)
    ensures var c := Candidates(products, s2t, period);
      var s := SortByDelta(c);
      var r := GetNClosest(n, s2t, products, period);
      && |r| == (if n <= 0 then 0 else if n < |c| then n else |c|)
      && r == Keys(s[..|r|])
      && (forall i, j :: 0 <= i < |r| <= j < |s| ==> s[i].1 <= s[j].1)
      && (forall i :: 0 <= i < |r| ==> r[i] in Keys(products))
  {
    var c := Candidates(products, s2t, period);
    var s := SortByDelta(c);
    var r := GetNClosest(n, s2t, products, period);
    SortByDeltaFacts(c);
    CandidateKeys(products, s2t, period);
    forall i | 0 <= i < |r| ensures r[i] in Keys(products) {
      assert r[i] == s[i].0;
      assert s[i] in multiset(c);
    }
  }

  /** Every candidate is named by a key of the products. */
  lemma {:induction false} CandidateKeys(products: Dict<string, int>, s2t: int, period: Period)
    ensures forall e :: e in Candidates(products, s2t, period) ==> e.0 in Keys(products)
  {
    if |products| > 0 {
      var n := |products| - 1;
      CandidateKeys(products[..n], s2t, period);
      assert Keys(products) == Keys(products[..n]) + [products[n].0];
    }
  }
}
