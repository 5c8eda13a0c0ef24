/** The nearest-rank percentile of the deadline estimator (estimateDeadlinePercentile in deadline_estimator.go). */
module NearestRank {
  import opened Common

  function CountBelow(xs: seq<int>, v: int): nat
  {
    if xs == [] then 0 else (if xs[0] < v then 1 else 0) + CountBelow(xs[1..], v)
  }

  function CountUpTo(xs: seq<int>, v: int): nat
  {
    if xs == [] then 0 else (if xs[0] <= v then 1 else 0) + CountUpTo(xs[1..], v)
  }

  /** The definition of the k-th smallest value that mentions neither sorting nor order. */
  ghost predicate IsRank(xs: seq<int>, k: int, v: int) {
    CountBelow(xs, v) < k <= CountUpTo(xs, v)
  }

  // ------------------------------------------------- sorting, as the library sort leaves the slice

  predicate Ascending(s: seq<int>) {
    forall i, j :: 0 <= i < j < |s| ==> s[i] <= s[j]
  }

  function Insert(s: seq<int>, v: int): (r: seq<int>)
    requires Ascending(s)
    ensures Ascending(r) && |r| == |s| + 1
    ensures forall x :: x in r <==> x == v || x in s
    ensures forall w :: CountBelow(r, w) == CountBelow(s, w) + (if v < w then 1 else 0)
    ensures forall w :: CountUpTo(r, w) == CountUpTo(s, w) + (if v <= w then 1 else 0)
  {
    if s == [] || v <= s[0] then
      assert ([v] + s)[1..] == s;
      [v] + s
    else
      var rest := Insert(s[1..], v);
      var r := [s[0]] + rest;
      assert r[1..] == rest;
      assert s == [s[0]] + s[1..];
      assert Ascending(r) by {
        forall j | 0 < j < |r| ensures s[0] <= r[j] {
          assert r[j] in rest;
        }
      }
      r
  }

  function SortedValues(xs: seq<int>): (r: seq<int>)
    ensures Ascending(r) && |r| == |xs|
    ensures forall x :: x in r <==> x in xs
    ensures forall w :: CountBelow(r, w) == CountBelow(xs, w)
    ensures forall w :: CountUpTo(r, w) == CountUpTo(xs, w)
  {
    if xs == [] then [] else Insert(SortedValues(xs[1..]), xs[0])
  }

  lemma {:induction false} CountBounds(s: seq<int>, v: int, k: nat)
    requires Ascending(s) && k <= |s|
    ensures (k < |s| ==> s[k] >= v) ==> CountBelow(s, v) <= k
    ensures (forall i :: 0 <= i < k ==> s[i] <= v) ==> CountUpTo(s, v) >= k
  {
    if s != [] {
      if k > 0 {
        CountBounds(s[1..], v, k - 1);
        assert forall i :: 0 <= i < k - 1 ==> s[1..][i] == s[i + 1];
      } else {
        CountBounds(s[1..], v, 0);
      }
    }
  }

  /** The value at position k of the sorted slice is the k-th smallest of the unsorted one. */
  lemma SortedPositionIsRank(xs: seq<int>, k: int)
    requires 1 <= k <= |xs|
    ensures IsRank(xs, k, SortedValues(xs)[k - 1])
  {
    hide CountBelow, CountUpTo, SortedValues;
    var s := SortedValues(xs);
    var v := s[k - 1];
    CountBounds(s, v, k - 1);
    CountBounds(s, v, k);
    assert CountBelow(s, v) == CountBelow(xs, v) && CountUpTo(s, v) == CountUpTo(xs, v);
  }

  lemma {:induction false} CountsNest(xs: seq<int>, v: int, w: int)
    requires w < v
    ensures CountUpTo(xs, w) <= CountBelow(xs, v)
  {
    if xs != [] {
      CountsNest(xs[1..], v, w);
    }
  }

  // ------------------------------------------------- order does not matter

  lemma {:induction false} CountsWithout(xs: seq<int>, i: nat, v: int)
    requires i < |xs|
    ensures CountBelow(xs, v) == CountBelow(xs[..i] + xs[i + 1..], v) + (if xs[i] < v then 1 else 0)
    ensures CountUpTo(xs, v) == CountUpTo(xs[..i] + xs[i + 1..], v) + (if xs[i] <= v then 1 else 0)
  {
    var without := xs[..i] + xs[i + 1..];
    if i == 0 {
      assert without == xs[1..];
    } else {
      CountsWithout(xs[1..], i - 1, v);
      assert without[1..] == xs[1..][..i - 1] + xs[1..][i..];
    }
  }

  lemma {:induction false} CountsOfPermutation(xs: seq<int>, ys: seq<int>, v: int)
    requires multiset(xs) == multiset(ys)
    ensures CountBelow(xs, v) == CountBelow(ys, v) && CountUpTo(xs, v) == CountUpTo(ys, v)
    decreases |xs|
  {
    if xs == [] {
      assert |multiset(ys)| == 0;
    } else {
      assert xs[0] in multiset(ys);
      var i :| 0 <= i < |ys| && ys[i] == xs[0];
      CountsWithout(ys, i, v);
      assert ys == ys[..i] + [ys[i]] + ys[i + 1..];
      assert xs == [xs[0]] + xs[1..];
      assert multiset(ys[..i] + ys[i + 1..]) == multiset(ys) - multiset{ys[i]};
      CountsOfPermutation(xs[1..], ys[..i] + ys[i + 1..], v);
    }
  }

  /** The k-th smallest value does not depend on the order in which samples arrived. */
  lemma RankIgnoresOrder(xs: seq<int>, ys: seq<int>, k: int)
    requires multiset(xs) == multiset(ys) && 1 <= k <= |xs|
    ensures |ys| == |xs| && SortedValues(xs)[k - 1] == SortedValues(ys)[k - 1]
  {
    assert |multiset(xs)| == |multiset(ys)|;
    var v, w := SortedValues(xs)[k - 1], SortedValues(ys)[k - 1];
    SortedPositionIsRank(xs, k);
    SortedPositionIsRank(ys, k);
    CountsOfPermutation(xs, ys, v);
    CountsOfPermutation(xs, ys, w);
    if v < w {
      CountsNest(ys, w, v);
    } else if w < v {
      CountsNest(xs, v, w);
    }
  }

  // ------------------------------------------------- raising samples or the rank raises the value

  lemma {:induction false} CountsOfRaised(xs: seq<int>, ys: seq<int>, v: int)
    requires |xs| == |ys| && forall i :: 0 <= i < |xs| ==> xs[i] <= ys[i]
    ensures CountUpTo(xs, v) >= CountUpTo(ys, v)
  {
    if xs != [] {
      CountsOfRaised(xs[1..], ys[1..], v);
    }
  }

  lemma RankMonotone(xs: seq<int>, ys: seq<int>, k: int, l: int)
    requires |xs| == |ys| && forall i :: 0 <= i < |xs| ==> xs[i] <= ys[i]
    requires 1 <= k <= l <= |xs|
    ensures SortedValues(xs)[k - 1] <= SortedValues(ys)[l - 1]
  {
    var v, w := SortedValues(xs)[k - 1], SortedValues(ys)[l - 1];
    SortedPositionIsRank(xs, k);
    SortedPositionIsRank(ys, l);
    CountsOfRaised(xs, ys, w);
    if w < v {
      CountsNest(xs, v, w);
    }
  }

  // ------------------------------------------------- the estimate

  /** The samples that enter the estimate: present and not negative, in arrival order. */
  function Usable(samples: seq<Option<int>>): (values: seq<int>)
    ensures forall v :: v in values ==> v >= 0
  {
    if samples == [] then []
    else
      var last := samples[|samples| - 1];
      Usable(samples[..|samples| - 1]) + (if last == None || last.value < 0 then [] else [last.value])
  }

  function Rank(percentile: nat, n: nat): nat
    requires n >= 1
  {
    var index := (percentile * n + 99) / 100;
    if index < 1 then 1 else if index > n then n else index
  }

  function Estimate(samples: seq<Option<int>>, minSamples: int, percentile: nat, fallback: int): int
    requires minSamples >= 1
  {
    var values := Usable(samples);
    if |values| < minSamples then fallback else SortedValues(values)[Rank(percentile, |values|) - 1]
  }

  /** For percentiles 1..100 the rank is the ceiling of percentile * n / 100 and needs no clamping. */
  lemma RankIsCeiling(percentile: nat, n: nat)
    requires 1 <= percentile <= 100 && n >= 1
    ensures var k := Rank(percentile, n);
            1 <= k <= n && 100 * (k - 1) < percentile * n <= 100 * k
  {
    assert percentile * n <= 100 * n;
    assert percentile * n >= 1;
  }

  /**
   Nearest-rank correctness: with enough usable samples the estimate v satisfies
   |{x < v}| < ceil(p n / 100) <= |{x <= v}|; otherwise it is the fallback.
   */
  lemma EstimateIsNearestRank(samples: seq<Option<int>>, minSamples: int, percentile: nat, fallback: int)
    requires minSamples >= 1 && 1 <= percentile <= 100
    ensures var values, v := Usable(samples), Estimate(samples, minSamples, percentile, fallback);
            if |values| < minSamples then v == fallback
            else exists k :: 100 * (k - 1) < percentile * |values| <= 100 * k && IsRank(values, k, v)
  {
    var values := Usable(samples);
    if |values| >= minSamples {
      var k := Rank(percentile, |values|);
      RankIsCeiling(percentile, |values|);
      SortedPositionIsRank(values, k);
      assert IsRank(values, k, Estimate(samples, minSamples, percentile, fallback));
    }
  }

  lemma RankGrows(p: nat, q: nat, n: nat)
    requires p <= q && n >= 1
    ensures 1 <= Rank(p, n) <= Rank(q, n) <= n
  {
    assert p * n <= q * n;
  }

  /** A single sample is its own estimate, unless it is missing or negative. */
  lemma EstimateOfOne(sample: Option<int>, percentile: nat, fallback: int)
    ensures Estimate([sample], 1, percentile, fallback) == if sample.Some? && sample.value >= 0 then sample.value else fallback
    ensures Estimate([], 1, percentile, fallback) == fallback
  {
    assert [sample][..0] == [];
    assert Usable([sample]) == if sample.Some? && sample.value >= 0 then [sample.value] else [];
    if sample.Some? {
      assert [sample.value][1..] == [];
    }
  }

  /** Negative samples never reach the estimate. */
  lemma EstimateNonNegative(samples: seq<Option<int>>, minSamples: int, percentile: nat, fallback: int)
    requires minSamples >= 1 && fallback >= 0
    ensures Estimate(samples, minSamples, percentile, fallback) >= 0
  {
    var values := Usable(samples);
    if |values| >= minSamples {
      assert SortedValues(values)[Rank(percentile, |values|) - 1] in SortedValues(values);
    }
  }

  /** One list of samples dominates another: the same ones are usable, and none is smaller. */
  predicate Dominates(high: seq<Option<int>>, low: seq<Option<int>>) {
    && |high| == |low|
    && forall i :: 0 <= i < |low| ==>
         if low[i] == None || low[i].value < 0 then high[i] == low[i]
         else high[i].Some? && low[i].value <= high[i].value
  }

  lemma {:induction false} UsableDominates(low: seq<Option<int>>, high: seq<Option<int>>)
    requires Dominates(high, low)
    ensures |Usable(low)| == |Usable(high)|
    ensures forall i :: 0 <= i < |Usable(low)| ==> Usable(low)[i] <= Usable(high)[i]
  {
    if low != [] {
      UsableDominates(low[..|low| - 1], high[..|high| - 1]);
    }
  }

  /** Raising samples, the percentile or the fallback never lowers the estimate. */
  lemma EstimateMonotone(low: seq<Option<int>>, high: seq<Option<int>>, minSamples: int,
                         p: nat, q: nat, fallback: int, fallback': int)
    requires Dominates(high, low) && minSamples >= 1 && p <= q && fallback <= fallback'
    ensures Estimate(low, minSamples, p, fallback) <= Estimate(high, minSamples, q, fallback')
  {
    hide Usable, SortedValues, Rank, Dominates;
    UsableDominates(low, high);
    var n := |Usable(low)|;
    if n >= minSamples {
      RankGrows(p, q, n);
      RankMonotone(Usable(low), Usable(high), Rank(p, n), Rank(q, n));
    }
  }

  /** The estimator's own loop and index arithmetic. */
  method EstimatePercentile(samples: seq<Option<int>>, minSamples: int, percentile: nat, fallback: int)
    returns (estimate: int)
    requires minSamples >= 1
    ensures estimate == Estimate(samples, minSamples, percentile, fallback)
  {
    var values: seq<int> := [];
    for i := 0 to |samples|
      invariant values == Usable(samples[..i])
    {
      assert samples[..i + 1][..i] == samples[..i];
      if samples[i] == None || samples[i].value < 0 {
        continue;
      }
      values := values + [samples[i].value];
    }
    assert samples[..|samples|] == samples;
    if |values| < minSamples {
      return fallback;
    }
    var sorted := SortedValues(values);
    var index := (percentile * |values| + 99) / 100;
    if index < 1 {
      index := 1;
    }
    if index > |values| {
      index := |values|;
    }
    return sorted[index - 1];
  }
}
