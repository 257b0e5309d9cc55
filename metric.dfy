/**
 The metric engine of the h-frac calculator: it turns the works fetched for one
 author into fractional citation values (citations divided by the number of
 authors), sorts them in descending order and scans the ranks for the
 fractional h-index.
 */
module Metric {

  /** One fetched work: its citation count and the length of its authorship list
      (a work without an authorship list has zero authors). */
  datatype Work = Work(citedByCount: nat, authorCount: nat)

  /** Result of the "Calculate h-frac" action. */
  datatype Outcome = Computed(hFrac: nat, analyzed: nat) | FetchFailed

  /** The fractional citation value of a work with at least one author. */
  function FractionalValue(w: Work): (v: real)
    requires w.authorCount > 0
    ensures 0.0 <= v <= w.citedByCount as real
    ensures v * w.authorCount as real == w.citedByCount as real
  {
    var v := w.citedByCount as real / w.authorCount as real;
    assert v * w.authorCount as real == w.citedByCount as real;
    v
  }

  /** The ranking input: the fractional values of the works that have authors,
      in fetch order; works without authors are skipped. */
  function Ranked(works: seq<Work>): (vs: seq<real>)
    ensures |vs| <= |works|
  {
    if works == [] then []
    else
      (if works[0].authorCount > 0 then [FractionalValue(works[0])] else [])
      + Ranked(works[1..])
  }

  /** Number of values that reach the threshold `k`. */
  function CountAtLeast(s: seq<real>, k: nat): (n: nat)
    ensures n <= |s|
  {
    if s == [] then 0
    else (if s[0] >= k as real then 1 else 0) + CountAtLeast(s[1..], k)
  }

  /** The h-frac index of a collection of fractional values, independent of
      their order: the largest k such that at least k values are >= k. */
  function HFrac(s: seq<real>): (h: nat)
    ensures h <= |s|
    ensures CountAtLeast(s, h) >= h
    ensures forall k: nat :: h < k ==> CountAtLeast(s, k) < k
  {
    LargestQualifying(s, |s|)
  }

  /** The largest k <= bound with at least k values >= k. */
  function LargestQualifying(s: seq<real>, bound: nat): (h: nat)
    requires bound <= |s|
    ensures h <= bound
    ensures CountAtLeast(s, h) >= h
    ensures forall k: nat :: h < k <= bound ==> CountAtLeast(s, k) < k
    decreases bound
  {
    if bound == 0 then 0
    else if CountAtLeast(s, bound) >= bound then bound
    else LargestQualifying(s, bound - 1)
  }

  /** Sorted in non-increasing order. */
  predicate Descending(s: seq<real>)
  {
    forall i, j :: 0 <= i < j < |s| ==> s[i] >= s[j]
  }

  /** What the threshold loop with its early `break` leaves in `h`: every rank
      up to h reaches its value, and the next rank (if any) does not. */
  predicate StopsAt(s: seq<real>, h: nat)
  {
    && h <= |s|
    && (forall i :: 0 <= i < h ==> s[i] >= (i + 1) as real)
    && (h < |s| ==> s[h] < (h + 1) as real)
  }

  /** The same loop without the `break`: the last rank whose value reaches it. */
  function FullScan(s: seq<real>): (h: nat)
    ensures h <= |s|
    ensures h > 0 ==> s[h - 1] >= h as real
    ensures forall i :: h <= i < |s| ==> s[i] < (i + 1) as real
  {
    if s == [] then 0
    else if s[|s| - 1] >= |s| as real then |s|
    else FullScan(s[..|s| - 1])
  }

  /** The ordinary h-index of raw citation counts: the largest k such that at
      least k counts are >= k. */
  function HIndex(cs: seq<nat>): (h: nat)
    ensures h <= |cs|
    ensures CitedAtLeast(cs, h) >= h
    ensures forall k: nat :: h < k ==> CitedAtLeast(cs, k) < k
  {
    LargestCited(cs, |cs|)
  }

  /** Number of citation counts that reach `k`. */
  function CitedAtLeast(cs: seq<nat>, k: nat): (n: nat)
    ensures n <= |cs|
  {
    if cs == [] then 0
    else (if cs[0] >= k then 1 else 0) + CitedAtLeast(cs[1..], k)
  }

  function LargestCited(cs: seq<nat>, bound: nat): (h: nat)
    requires bound <= |cs|
    ensures h <= bound
    ensures CitedAtLeast(cs, h) >= h
    ensures forall k: nat :: h < k <= bound ==> CitedAtLeast(cs, k) < k
    decreases bound
  {
    if bound == 0 then 0
    else if CitedAtLeast(cs, bound) >= bound then bound
    else LargestCited(cs, bound - 1)
  }

  /** The raw citation counts of the works, in fetch order. */
  function Citations(works: seq<Work>): (cs: seq<nat>)
    ensures |cs| == |works|
    ensures forall i :: 0 <= i < |works| ==> cs[i] == works[i].citedByCount
  {
    if works == [] then [] else [works[0].citedByCount] + Citations(works[1..])
  }

  // ---------------------------------------------------------------------------
  // The filter

  lemma {:induction false} RankedAppend(a: seq<Work>, b: seq<Work>)
    ensures Ranked(a + b) == Ranked(a) + Ranked(b)
    decreases |a|
  {
    if a != [] {
      assert (a + b)[0] == a[0];
      assert (a + b)[1..] == a[1..] + b;
      RankedAppend(a[1..], b);
    } else {
      assert a + b == b;
    }
  }

  /** Every ranking value comes from a fetched work that has authors. */
  lemma {:induction false} RankedSound(works: seq<Work>)
    ensures forall v :: v in Ranked(works) ==>
      exists w :: w in works && w.authorCount > 0 && FractionalValue(w) == v
    decreases |works|
  {
    if works != [] {
      RankedSound(works[1..]);
      forall v | v in Ranked(works)
        ensures exists w :: w in works && w.authorCount > 0 && FractionalValue(w) == v
      {
        if works[0].authorCount > 0 && v == FractionalValue(works[0]) {
          assert works[0] in works;
        } else {
          assert v in Ranked(works[1..]);
          var w :| w in works[1..] && w.authorCount > 0 && FractionalValue(w) == v;
          assert w in works;
        }
      }
    }
  }

  /** Every fetched work that has authors contributes its value. */
  lemma {:induction false} RankedComplete(works: seq<Work>, i: nat)
    requires i < |works| && works[i].authorCount > 0
    ensures FractionalValue(works[i]) in Ranked(works)
    decreases i
  {
    if i > 0 {
      RankedComplete(works[1..], i - 1);
    }
  }

  /** A work without authors changes nothing, wherever it sits. */
  lemma ZeroAuthorWorkSkipped(a: seq<Work>, citations: nat, b: seq<Work>)
    ensures Ranked(a + [Work(citations, 0)] + b) == Ranked(a + b)
  {
    RankedAppend(a + [Work(citations, 0)], b);
    RankedAppend(a, [Work(citations, 0)]);
    RankedAppend(a, b);
  }

  /** The ranking list is as long as the fetched list exactly when no work lacks authors. */
  lemma {:induction false} RankedFull(works: seq<Work>)
    ensures |Ranked(works)| == |works| <==> forall w :: w in works ==> w.authorCount > 0
    decreases |works|
  {
    if works != [] {
      RankedFull(works[1..]);
      assert forall w :: w in works <==> w == works[0] || w in works[1..];
    }
  }

  // ---------------------------------------------------------------------------
  // Counting

  lemma {:induction false} CountAppend(a: seq<real>, b: seq<real>, k: nat)
    ensures CountAtLeast(a + b, k) == CountAtLeast(a, k) + CountAtLeast(b, k)
    decreases |a|
  {
    if a == [] {
      assert a + b == b;
    } else {
      assert (a + b)[0] == a[0];
      assert (a + b)[1..] == a[1..] + b;
      CountAppend(a[1..], b, k);
    }
  }

  /** Counts depend only on the multiset of values. */
  lemma {:induction false} CountPermutation(s: seq<real>, r: seq<real>, k: nat)
    requires multiset(s) == multiset(r)
    ensures CountAtLeast(s, k) == CountAtLeast(r, k)
    decreases |s|
  {
    if s == [] {
      assert |r| == |multiset(r)| == 0;
    } else {
      var x := s[0];
      assert x in multiset(r);
      var j :| 0 <= j < |r| && r[j] == x;
      var rest := r[..j] + r[j + 1..];
      assert r == r[..j] + [x] + r[j + 1..];
      assert s == [x] + s[1..];
      assert multiset(s) == multiset([x]) + multiset(s[1..]);
      assert multiset(r) == multiset(r[..j]) + multiset([x]) + multiset(r[j + 1..]);
      assert multiset(rest) == multiset(r[..j]) + multiset(r[j + 1..]);
      assert multiset(s[1..]) == multiset(s) - multiset{x};
      assert multiset(rest) == multiset(r) - multiset{x};
      CountPermutation(s[1..], rest, k);
      CountAppend(r[..j] + [x], r[j + 1..], k);
      CountAppend(r[..j], [x], k);
      CountAppend(r[..j], r[j + 1..], k);
    }
  }

  /** If the first m values reach t, at least m values reach t. */
  lemma {:induction false} CountLowerBound(s: seq<real>, k: nat, m: nat)
    requires m <= |s|
    requires forall i :: 0 <= i < m ==> s[i] >= k as real
    ensures CountAtLeast(s, k) >= m
    decreases m
  {
    if m > 0 {
      CountLowerBound(s[1..], k, m - 1);
    }
  }

  /** If no value from index m on reaches t, at most m values reach t. */
  lemma {:induction false} CountUpperBound(s: seq<real>, k: nat, m: nat)
    requires m <= |s|
    requires forall i :: m <= i < |s| ==> s[i] < k as real
    ensures CountAtLeast(s, k) <= m
    decreases |s|
  {
    if s != [] {
      CountUpperBound(s[1..], k, if m == 0 then 0 else m - 1);
    }
  }

  // ---------------------------------------------------------------------------
  // Properties of the h-frac index

  /** The characterisation in HFrac's postconditions pins down one value. */
  lemma HFracUnique(s: seq<real>, h: nat)
    requires CountAtLeast(s, h) >= h
    requires forall k: nat :: h < k ==> CountAtLeast(s, k) < k
    ensures h == HFrac(s)
  {
  }

  /** Reordering the values does not change the index. */
  lemma HFracPermutation(s: seq<real>, r: seq<real>)
    requires multiset(s) == multiset(r)
    ensures HFrac(s) == HFrac(r)
  {
    forall k: nat ensures CountAtLeast(s, k) == CountAtLeast(r, k) {
      CountPermutation(s, r, k);
    }
    HFracUnique(r, HFrac(s));
  }

  /** More values never lower the index. */
  lemma HFracMonotone(s: seq<real>, t: seq<real>)
    ensures HFrac(s) <= HFrac(s + t)
    ensures HFrac(t) <= HFrac(s + t)
  {
    var h1, h2 := HFrac(s), HFrac(t);
    CountAppend(s, t, h1);
    CountAppend(s, t, h2);
  }

  /** Fetching more works never lowers h-frac. */
  lemma MoreWorksNeverLower(a: seq<Work>, b: seq<Work>)
    ensures HFrac(Ranked(a)) <= HFrac(Ranked(a + b))
  {
    RankedAppend(a, b);
    HFracMonotone(Ranked(a), Ranked(b));
  }

  /** On a descending list, the loop with `break` computes h-frac. */
  lemma ScanIsHFrac(s: seq<real>, h: nat)
    requires Descending(s) && StopsAt(s, h)
    ensures h == HFrac(s)
  {
    forall i | 0 <= i < h
      ensures s[i] >= h as real
    {
      assert s[i] >= s[h - 1];
    }
    CountLowerBound(s, h, h);
    forall k: nat | h < k
      ensures CountAtLeast(s, k) < k
    {
      CountUpperBound(s, k, h);
    }
    HFracUnique(s, h);
  }

  /** On a descending list, the early `break` changes nothing: the scan over
      every rank ends with the same value. */
  lemma BreakMatchesFullScan(s: seq<real>, h: nat)
    requires Descending(s) && StopsAt(s, h)
    ensures h == FullScan(s)
  {
  }

  /** Without the sort the early `break` would matter. */
  lemma BreakNeedsSortedInput()
    ensures StopsAt([0.0, 5.0], 0) && FullScan([0.0, 5.0]) == 2
  {
  }

  /** With one author per work, h-frac is the ordinary h-index. */
  lemma SingleAuthorIsHIndex(works: seq<Work>)
    requires forall w :: w in works ==> w.authorCount == 1
    ensures HFrac(Ranked(works)) == HIndex(Citations(works))
  {
    forall k: nat ensures CountAtLeast(Ranked(works), k) == CitedAtLeast(Citations(works), k) {
      SingleAuthorCounts(works, k);
    }
    HFracUnique(Ranked(works), HIndex(Citations(works)));
  }

  lemma {:induction false} SingleAuthorCounts(works: seq<Work>, k: nat)
    requires forall w :: w in works ==> w.authorCount == 1
    ensures CountAtLeast(Ranked(works), k) == CitedAtLeast(Citations(works), k)
    decreases |works|
  {
    if works != [] {
      assert works[0] in works;
      assert forall w :: w in works[1..] ==> w in works;
      SingleAuthorCounts(works[1..], k);
      var v := FractionalValue(works[0]);
      assert v == works[0].citedByCount as real;
      assert Ranked(works) == [v] + Ranked(works[1..]);
      CountAppend([v], Ranked(works[1..]), k);
    }
  }

  /** Worked examples: three single-author works cited 10, 8 and 5 times; one
      two-author work cited 10 times; no works; one work without authors. */
  lemma Examples()
    ensures HFrac(Ranked([Work(10, 1), Work(8, 1), Work(5, 1)])) == 3
    ensures HFrac(Ranked([Work(10, 2)])) == 1
    ensures HFrac(Ranked([])) == 0
    ensures HFrac(Ranked([Work(5, 0)])) == 0
  {
  }

  // ---------------------------------------------------------------------------
  // The computation, step by step

  /** The filter-and-convert loop: appends the value of every work that has authors. */
  method CollectFractional(works: seq<Work>) returns (list: seq<real>)
    ensures list == Ranked(works)
  {
    list := [];
    var i := 0;
    while i < |works|
      invariant 0 <= i <= |works|
      invariant list == Ranked(works[..i])
    {
      var work := works[i];
      var authorCount := work.authorCount;
      assert works[..i + 1] == works[..i] + [work];
      RankedAppend(works[..i], [work]);
      if authorCount > 0 {
        var fracCit := work.citedByCount as real / authorCount as real;
        list := list + [fracCit];
      }
      i := i + 1;
    }
    assert works[..i] == works;
  }

  /** The in-place descending sort. */
  method SortDescending(a: array<real>)
    modifies a
    ensures Descending(a[..])
    ensures multiset(a[..]) == multiset(old(a[..]))
  {
    var i := 0;
    while i < a.Length
      invariant 0 <= i <= a.Length
      invariant forall p, q :: 0 <= p < q < i ==> a[p] >= a[q]
      invariant multiset(a[..]) == multiset(old(a[..]))
    {
      InsertDescending(a, i);
      i := i + 1;
    }
  }

  /** One insertion step: moves a[i] left into the descending prefix a[..i]. */
  method InsertDescending(a: array<real>, i: nat)
    requires i < a.Length
    requires forall p, q :: 0 <= p < q < i ==> a[p] >= a[q]
    modifies a
    ensures forall p, q :: 0 <= p < q <= i ==> a[p] >= a[q]
    ensures multiset(a[..i + 1]) == multiset(old(a[..i + 1]))
    ensures a[i + 1..] == old(a[i + 1..])
    ensures multiset(a[..]) == multiset(old(a[..]))
  {
    var j := i;
    while j > 0 && a[j - 1] < a[j]
      invariant 0 <= j <= i
      invariant forall p, q :: 0 <= p < q <= i && p != j && q != j ==> a[p] >= a[q]
      invariant forall q :: j < q <= i ==> a[j] >= a[q]
      invariant 0 < j < i ==> a[j - 1] >= a[j + 1]
      invariant forall m :: i < m < a.Length ==> a[m] == old(a[m])
      invariant multiset(a[..i + 1]) == multiset(old(a[..i + 1]))
    {
      ghost var prefix := a[..i + 1];
      Swap(a, j - 1, j);
      assert a[..i + 1] == prefix[j - 1 := prefix[j]][j := prefix[j - 1]];
      j := j - 1;
    }
    assert a[i + 1..] == old(a[i + 1..]);
    assert a[..] == a[..i + 1] + a[i + 1..];
    assert old(a[..]) == old(a[..i + 1]) + old(a[i + 1..]);
  }

  method Swap(a: array<real>, i: nat, j: nat)
    requires i < j < a.Length
    modifies a
    ensures a[i] == old(a[j]) && a[j] == old(a[i])
    ensures forall m :: 0 <= m < a.Length && m != i && m != j ==> a[m] == old(a[m])
    ensures multiset(a[..]) == multiset(old(a[..]))
  {
    a[i], a[j] := a[j], a[i];
  }

  /** The threshold loop: walks the ranks from 1 and stops at the first rank
      whose value falls short of it. */
  method ThresholdScan(s: seq<real>) returns (hFrac: nat)
    ensures StopsAt(s, hFrac)
  {
    hFrac := 0;
    var i := 0;
    while i < |s|
      invariant 0 <= i <= |s|
      invariant hFrac == i
      invariant forall j :: 0 <= j < i ==> s[j] >= (j + 1) as real
    {
      if s[i] >= (i + 1) as real {
        hFrac := i + 1;
      } else {
        break;
      }
      i := i + 1;
    }
  }

  /** Filter, sort and scan, as the script runs them on a fetched work list;
      "Analyzed Papers" is the number of works fetched. */
  method ComputeHFrac(works: seq<Work>) returns (hFrac: nat, analyzed: nat)
    ensures hFrac == HFrac(Ranked(works))
    ensures hFrac <= |Ranked(works)| <= |works|
    ensures analyzed == |works|
  {
    var values := CollectFractional(works);
    var a := new real[|values|](i requires 0 <= i < |values| => values[i]);
    assert a[..] == values;
    SortDescending(a);
    hFrac := ThresholdScan(a[..]);
    ScanIsHFrac(a[..], hFrac);
    HFracPermutation(a[..], values);
    analyzed := |works|;
  }

  /** The "Calculate h-frac" action after the works request: a failed request
      produces no result at all. */
  method CalculateHFrac(status: int, works: seq<Work>) returns (r: Outcome)
    ensures r.FetchFailed? <==> status != 200
    ensures r.Computed? ==> r.hFrac == HFrac(Ranked(works)) && r.analyzed == |works|
  {
    if status == 200 {
      var hFrac, analyzed := ComputeHFrac(works);
      r := Computed(hFrac, analyzed);
    } else {
      r := FetchFailed;
    }
  }
}
