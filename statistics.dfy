/** The statistics over the nearest-distance table: mean, `median`, maximum
    and the farthest address. */
module Statistics {
  import opened Dict

  /** `sum(values)`. */
  function Sum(s: seq<real>): real
  {
    if s == [] then 0.0 else s[0] + Sum(s[1..])
  }

  /** `max(values)`: an element that no element exceeds. */
  function Max(s: seq<real>): (r: real)
    requires |s| > 0
    ensures forall i :: 0 <= i < |s| ==> s[i] <= r
    ensures exists i :: 0 <= i < |s| && s[i] == r
  {
    if |s| == 1 then s[0]
    else
      var rest := Max(s[1..]);
      assert forall i :: 1 <= i < |s| ==> s[i] == s[1..][i - 1];
      if s[0] >= rest then s[0] else rest
  }

  /** The least element; used to state bounds. */
  function Min(s: seq<real>): (r: real)
    requires |s| > 0
    ensures forall i :: 0 <= i < |s| ==> r <= s[i]
    ensures exists i :: 0 <= i < |s| && s[i] == r
  {
    if |s| == 1 then s[0]
    else
      var rest := Min(s[1..]);
      assert forall i :: 1 <= i < |s| ==> s[i] == s[1..][i - 1];
      if s[0] <= rest then s[0] else rest
  }

  lemma {:induction false} SumBounds(s: seq<real>, lo: real, hi: real)
    requires forall i :: 0 <= i < |s| ==> lo <= s[i] <= hi
    ensures |s| as real * lo <= Sum(s) <= |s| as real * hi
  {
    if s != [] {
      SumBounds(s[1..], lo, hi);
      assert (|s| - 1) as real * lo + lo == |s| as real * lo;
      assert (|s| - 1) as real * hi + hi == |s| as real * hi;
    }
  }

  lemma DivisionBounds(total: real, n: real, lo: real, hi: real)
    requires n > 0.0 && n * lo <= total <= n * hi
    ensures lo <= total / n <= hi
  {
    assert total / n * n == total;
  }

  /** The mean `sum(values) / len(values)`: it lies between the least and the
      greatest value. */
  function Mean(s: seq<real>): (m: real)
    requires |s| > 0
    ensures Min(s) <= m <= Max(s)
  {
    SumBounds(s, Min(s), Max(s));
    DivisionBounds(Sum(s), |s| as real, Min(s), Max(s));
    Sum(s) / |s| as real
  }

  lemma {:induction false} SumConcat(a: seq<real>, b: seq<real>)
    ensures Sum(a + b) == Sum(a) + Sum(b)
  {
    if a == [] {
      assert a + b == b;
    } else {
      SumConcat(a[1..], b);
      assert (a + b)[1..] == a[1..] + b;
      calc {
        Sum(a + b);
        (a + b)[0] + Sum((a + b)[1..]);
        a[0] + Sum(a[1..] + b);
        a[0] + Sum(a[1..]) + Sum(b);
      }
    }
  }

  /** Taking the first element off `a` and an equal element off `b` leaves
      the same values on both sides. */
  lemma RemoveMatching(a: seq<real>, b: seq<real>, i: nat)
    requires |a| > 0 && multiset(a) == multiset(b) && i < |b| && b[i] == a[0]
    ensures multiset(a[1..]) == multiset(b[..i] + b[i + 1..])
  {
    assert a == [a[0]] + a[1..];
    assert b == b[..i] + [a[0]] + b[i + 1..];
    assert multiset(a[1..]) == multiset(a) - multiset{a[0]};
    assert multiset(b[..i] + b[i + 1..]) == multiset(b) - multiset{a[0]};
  }

  lemma {:induction false} SumPermutation(a: seq<real>, b: seq<real>)
    requires multiset(a) == multiset(b)
    ensures Sum(a) == Sum(b)
    decreases |a|
  {
    if a == [] {
      assert |multiset(b)| == 0;
    } else {
      var x := a[0];
      assert x in multiset(b);
      var i :| 0 <= i < |b| && b[i] == x;
      var rest := b[..i] + b[i + 1..];
      assert b == b[..i] + [x] + b[i + 1..];
      SumConcat(b[..i] + [x], b[i + 1..]);
      SumConcat(b[..i], [x]);
      SumConcat(b[..i], b[i + 1..]);
      RemoveMatching(a, b, i);
      SumPermutation(a[1..], rest);
    }
  }

  /** The mean does not depend on the order of the values. */
  lemma MeanPermutation(a: seq<real>, b: seq<real>)
    requires |a| > 0 && multiset(a) == multiset(b)
    ensures |b| == |a| && Mean(a) == Mean(b)
  {
    assert |multiset(a)| == |multiset(b)|;
    SumPermutation(a, b);
  }

  predicate Sorted(s: seq<real>)
  {
    forall i, j :: 0 <= i < j < |s| ==> s[i] <= s[j]
  }

  /** Moves `a[i]` left past every greater element, so that `a[..i + 1]`
      is ascending; one pass of insertion sort. */
  method InsertAt(a: array<real>, i: nat)
    requires i < a.Length && Sorted(a[..i])
    modifies a
    ensures Sorted(a[..i + 1])
    ensures multiset(a[..]) == multiset(old(a[..]))
    ensures a[i + 1..] == old(a[i + 1..])
  {
    var j := i;
    while j > 0 && a[j - 1] > a[j]
      invariant 0 <= j <= i
      invariant forall m, n :: 0 <= m < n <= i && n != j ==> a[m] <= a[n]
      invariant multiset(a[..]) == multiset(old(a[..]))
      invariant a[i + 1..] == old(a[i + 1..])
    {
      a[j - 1], a[j] := a[j], a[j - 1];
      j := j - 1;
    }
  }

  /** `list.sort()`: sorts the list in place into ascending order. */
  method SortInPlace(a: array<real>)
    modifies a
    ensures Sorted(a[..])
    ensures multiset(a[..]) == multiset(old(a[..]))
  {
    for i := 0 to a.Length
      invariant Sorted(a[..i])
      invariant multiset(a[..]) == multiset(old(a[..]))
    {
      InsertAt(a, i);
    }
    assert a[..a.Length] == a[..];
  }

  /** The value `median` picks from an ascending list of `n` values: the
      element at `(n - 1) / 2` when `n` is odd, otherwise the average of that
      element and the next one. */
  function Middle(sorted: seq<real>): real
    requires |sorted| > 0
  {
    var p := (|sorted| - 1) / 2;
    if |sorted| % 2 == 1 then sorted[p] else (sorted[p] + sorted[p + 1]) / 2.0
  }

  /** `m` is what `median` returns for `values`: the middle of an ascending
      rearrangement of them. */
  ghost predicate IsMedianOf(values: seq<real>, m: real)
  {
    exists s :: Sorted(s) && multiset(s) == multiset(values) && |s| > 0 && m == Middle(s)
  }

  /** `median`: sorts a copy of the values and picks the middle. */
  method Median(distances: Dict<real>) returns (m: real)
    requires |distances| > 0
    ensures IsMedianOf(Values(distances), m)
  {
    var values := Values(distances);
    var sorted := new real[|values|](i requires 0 <= i < |values| => values[i]);
    assert sorted[..] == values;
    SortInPlace(sorted);
    var p := (sorted.Length - 1) / 2;
    if sorted.Length % 2 == 1 {
      m := sorted[p];
    } else {
      m := (sorted[p] + sorted[p + 1]) / 2.0;
    }
    assert m == Middle(sorted[..]);
  }

  /** The first element of an ascending list is at most each of its values. */
  lemma SortedHeadLeast(s: seq<real>, x: real)
    requires Sorted(s) && |s| > 0 && x in multiset(s)
    ensures s[0] <= x
  {
    var i :| 0 <= i < |s| && s[i] == x;
  }

  lemma SortedTail(s: seq<real>)
    requires Sorted(s) && |s| > 0
    ensures Sorted(s[1..])
  {
    forall i, j | 0 <= i < j < |s| - 1
      ensures s[1..][i] <= s[1..][j]
    {
      assert s[1..][i] == s[i + 1] && s[1..][j] == s[j + 1];
    }
  }

  /** Two ascending lists holding the same values are the same list. */
  lemma {:induction false} SortedUnique(a: seq<real>, b: seq<real>)
    requires Sorted(a) && Sorted(b) && multiset(a) == multiset(b)
    ensures a == b
    decreases |a|
  {
    assert |b| == |a| by { assert |multiset(b)| == |multiset(a)|; }
    if a != [] {
      SortedHeadLeast(a, b[0]);
      SortedHeadLeast(b, a[0]);
      RemoveMatching(a, b, 0);
      assert b[..0] + b[1..] == b[1..];
      SortedTail(a);
      SortedTail(b);
      SortedUnique(a[1..], b[1..]);
      assert a == [a[0]] + a[1..] && b == [b[0]] + b[1..];
    }
  }

  /** The median depends only on the values, not on their order. */
  lemma MedianOrderIndependent(a: seq<real>, b: seq<real>, ma: real, mb: real)
    requires multiset(a) == multiset(b)
    requires IsMedianOf(a, ma) && IsMedianOf(b, mb)
    ensures ma == mb
  {
    var s :| Sorted(s) && multiset(s) == multiset(a) && |s| > 0 && ma == Middle(s);
    var t :| Sorted(t) && multiset(t) == multiset(b) && |t| > 0 && mb == Middle(t);
    SortedUnique(s, t);
  }

  lemma ValueBounds(values: seq<real>, x: real)
    requires |values| > 0 && x in multiset(values)
    ensures Min(values) <= x <= Max(values)
  {
    var i :| 0 <= i < |values| && values[i] == x;
  }

  lemma MiddleBounds(values: seq<real>, s: seq<real>)
    requires |s| > 0 && multiset(s) == multiset(values)
    ensures |values| > 0 && Min(values) <= Middle(s) <= Max(values)
  {
    assert |values| == |s| by { assert |multiset(s)| == |multiset(values)|; }
    var p := (|s| - 1) / 2;
    assert s[p] in multiset(s);
    ValueBounds(values, s[p]);
    if |s| % 2 == 0 {
      assert s[p + 1] in multiset(s);
      ValueBounds(values, s[p + 1]);
    }
  }

  /** The median lies between the least and the greatest value. */
  lemma MedianBounds(values: seq<real>, m: real)
    requires |values| > 0 && IsMedianOf(values, m)
    ensures Min(values) <= m <= Max(values)
  {
    var s :| Sorted(s) && multiset(s) == multiset(values) && |s| > 0 && m == Middle(s);
    MiddleBounds(values, s);
  }

  /** The two worked examples: [10, 20, 30, 40] gives 25 and [5, 1, 9] gives 5. */
  lemma MedianExamples()
    ensures IsMedianOf([10.0, 20.0, 30.0, 40.0], 25.0)
    ensures IsMedianOf([5.0, 1.0, 9.0], 5.0)
  {
    var even: seq<real> := [10.0, 20.0, 30.0, 40.0];
    assert Sorted(even) && Middle(even) == 25.0;
    var odd: seq<real> := [1.0, 5.0, 9.0];
    assert Sorted(odd) && Middle(odd) == 5.0;
    assert multiset(odd) == multiset([5.0, 1.0, 9.0]);
  }

  /** `d[k]` is the last item holding `maximum`, and no item exceeds it. */
  ghost predicate LastMaximumAt(d: Dict<real>, k: int, maximum: real)
  {
    && 0 <= k < |d|
    && d[k].1 == maximum
    && (forall i :: 0 <= i < |d| ==> d[i].1 <= maximum)
    && forall j :: k < j < |d| ==> d[j].1 != maximum
  }

  /** `maximum = max(vzdalenosti.values())` and the loop over
      `vzdalenosti.items()` that overwrites `nejvzdalenejsi` with every key
      whose value equals it, so that the LAST such key remains. */
  method Farthest(distances: Dict<real>) returns (maximum: real, farthest: string)
    requires |distances| > 0
    ensures exists k :: LastMaximumAt(distances, k, maximum) && distances[k].0 == farthest
  {
    maximum := Max(Values(distances));
    farthest := "";
    ghost var last := -1;
    for i := 0 to |distances|
      invariant -1 <= last < i
      invariant last >= 0 ==> distances[last] == (farthest, maximum)
      invariant forall j :: last < j < i ==> distances[j].1 != maximum
    {
      if distances[i].1 == maximum {
        farthest := distances[i].0;
        last := i;
      }
    }
    assert LastMaximumAt(distances, last, maximum);
  }
}
