/** The order statistics of the data-analysis tool: rank assignment for the
    Spearman coefficient, quartile interpolation, the median, the IQR outlier
    filter, and the parameter guards of the correlation and z-score analyses. */
module DataAnalysis {
  import opened Wrappers
  import opened Sorting

  // ----------------------------------------------------------------- ranks

  /** A value paired with its position in the input, as `enumerate` builds it. */
  type Entry = (real, nat)

  /** The order a stable sort by value leaves entries with distinct positions
      in: by value, and by original position among equal values. */
  predicate Before(x: Entry, y: Entry)
  {
    x.0 < y.0 || (x.0 == y.0 && x.1 < y.1)
  }

  /** Each entry comes strictly before the next. */
  predicate Ordered(s: seq<Entry>)
  {
    forall p, q :: 0 <= p < q < |s| ==> Before(s[p], s[q])
  }

  /** The entry of data[i], paired with i. */
  function EntryOf(data: seq<real>, i: nat): Entry
    requires i < |data|
  {
    (data[i], i)
  }

  /** `list(enumerate(data))` with each pair written value first. */
  function Enumerate(data: seq<real>): (e: seq<Entry>)
    ensures |e| == |data| && forall i :: 0 <= i < |data| ==> e[i] == EntryOf(data, i)
  {
    seq(|data|, i requires 0 <= i < |data| => EntryOf(data, i))
  }

  /** `_convert_to_ranks`: pairs every value with its position, sorts the
      pairs by value (stably, so equal values keep their input order) and
      gives the pair at sorted position p the rank p + 1. The ranks are a
      permutation of 1..n that puts smaller values first and, among equal
      values, earlier positions first. */
  method ConvertToRanks(data: seq<real>) returns (ranks: seq<nat>)
    ensures |ranks| == |data|
    ensures forall i :: 0 <= i < |data| ==> 1 <= ranks[i] <= |data|
    ensures forall k :: 1 <= k <= |data| ==> k in ranks
    ensures forall i, j :: 0 <= i < |data| && 0 <= j < |data| && data[i] < data[j] ==> ranks[i] < ranks[j]
    ensures forall i, j :: 0 <= i < j < |data| && data[i] == data[j] ==> ranks[i] < ranks[j]
  {
    var n := |data|;
    var indexed := new Entry[n](i requires 0 <= i < n => (data[i], i));
    assert indexed[..] == Enumerate(data);
    SortByValue(indexed);
    var sorted := indexed[..];
    DistinctPositions(data, sorted);
    ranks := FillRanks(n, sorted);
    RanksFromOrder(data, sorted, ranks);
  }

  /** The loop of `_convert_to_ranks` that writes rank p + 1 at the original
      position of the p-th sorted entry. */
  method FillRanks(n: nat, sorted: seq<Entry>) returns (ranks: seq<nat>)
    requires |sorted| == n
    requires forall p :: 0 <= p < n ==> sorted[p].1 < n
    requires forall p, q :: 0 <= p < q < n ==> sorted[p].1 != sorted[q].1
    ensures |ranks| == n
    ensures forall p :: 0 <= p < n ==> ranks[sorted[p].1] == p + 1
  {
    var r := new nat[n](_ => 0);
    for p := 0 to n
      invariant forall q :: 0 <= q < p ==> r[sorted[q].1] == q + 1
    {
      r[sorted[p].1] := p + 1;
    }
    ranks := r[..];
  }

  /** Every entry of a permutation of the enumerated data is the entry of
      the position it records. */
  lemma Located(data: seq<real>, sorted: seq<Entry>, p: nat)
    requires multiset(sorted) == multiset(Enumerate(data))
    requires p < |sorted|
    ensures sorted[p].1 < |data| && sorted[p] == EntryOf(data, sorted[p].1)
  {
    var e := Enumerate(data);
    assert sorted[p] in multiset(e);
    var q :| 0 <= q < |e| && e[q] == sorted[p];
  }

  /** In an ordered permutation of the enumerated data, no two entries
      record the same position. */
  lemma DistinctPositions(data: seq<real>, sorted: seq<Entry>)
    requires Ordered(sorted) && multiset(sorted) == multiset(Enumerate(data))
    ensures |sorted| == |data|
    ensures forall p :: 0 <= p < |sorted| ==> sorted[p].1 < |data|
    ensures forall p, q :: 0 <= p < q < |sorted| ==> sorted[p].1 != sorted[q].1
  {
    assert |sorted| == |multiset(sorted)| == |Enumerate(data)|;
    forall p | 0 <= p < |sorted| ensures sorted[p].1 < |data| {
      Located(data, sorted, p);
    }
    forall p, q | 0 <= p < q < |sorted| ensures sorted[p].1 != sorted[q].1 {
      Located(data, sorted, p);
      Located(data, sorted, q);
      assert Before(sorted[p], sorted[q]);
    }
  }

  /** The position p at which the entry of data[i] sits in the sorted
      entries; its rank is p + 1. */
  lemma RankIs(data: seq<real>, sorted: seq<Entry>, ranks: seq<nat>, i: nat) returns (p: nat)
    requires multiset(sorted) == multiset(Enumerate(data))
    requires |sorted| == |data| == |ranks|
    requires forall p :: 0 <= p < |sorted| ==> sorted[p].1 < |data| && ranks[sorted[p].1] == p + 1
    requires i < |data|
    ensures p < |sorted| && sorted[p] == EntryOf(data, i) && ranks[i] == p + 1
  {
    var e := Enumerate(data);
    assert e[i] in multiset(sorted);
    p :| 0 <= p < |sorted| && sorted[p] == e[i];
  }

  /** Ranks read off an ordered permutation of the enumerated data form a
      permutation of 1..n that respects the order of the entries. */
  lemma RanksFromOrder(data: seq<real>, sorted: seq<Entry>, ranks: seq<nat>)
    requires Ordered(sorted) && multiset(sorted) == multiset(Enumerate(data))
    requires |sorted| == |data| == |ranks|
    requires forall p :: 0 <= p < |sorted| ==> sorted[p].1 < |data| && ranks[sorted[p].1] == p + 1
    ensures forall i :: 0 <= i < |data| ==> 1 <= ranks[i] <= |data|
    ensures forall k :: 1 <= k <= |data| ==> k in ranks
    ensures forall i, j :: 0 <= i < |data| && 0 <= j < |data| && Before(EntryOf(data, i), EntryOf(data, j)) ==> ranks[i] < ranks[j]
  {
    forall i | 0 <= i < |data| ensures 1 <= ranks[i] <= |data| {
      var p := RankIs(data, sorted, ranks, i);
    }
    forall k | 1 <= k <= |data| ensures k in ranks {
      assert ranks[sorted[k - 1].1] == k;
    }
    forall i, j | 0 <= i < |data| && 0 <= j < |data| && Before(EntryOf(data, i), EntryOf(data, j))
      ensures ranks[i] < ranks[j]
    {
      var p := RankIs(data, sorted, ranks, i);
      var q := RankIs(data, sorted, ranks, j);
    }
  }

  /** `indexed_data.sort(key=lambda x: x[0])`: a stable insertion sort by
      value over entries that start out in position order. */
  method SortByValue(a: array<Entry>)
    requires forall p :: 0 <= p < a.Length ==> a[p].1 == p
    modifies a
    ensures Ordered(a[..])
    ensures multiset(a[..]) == multiset(old(a[..]))
  {
    var i := 0;
    while i < a.Length
      invariant 0 <= i <= a.Length
      invariant multiset(a[..]) == multiset(old(a[..]))
      invariant Ordered(a[..i])
      invariant forall p :: 0 <= p < i ==> a[p].1 < i
      invariant forall p :: i <= p < a.Length ==> a[p].1 == p
    {
      SinkEntry(a, i);
      i := i + 1;
    }
    assert a[..a.Length] == a[..];
  }

  /** One pass of the stable insertion sort: moves a[i] in front of the
      entries with a larger value, and behind every entry of equal value. */
  method SinkEntry(a: array<Entry>, i: nat)
    requires i < a.Length
    requires Ordered(a[..i])
    requires forall p :: 0 <= p < i ==> a[p].1 < a[i].1
    modifies a
    ensures Ordered(a[..i + 1])
    ensures multiset(a[..]) == multiset(old(a[..]))
    ensures forall p :: 0 <= p <= i ==> a[p].1 <= old(a[i].1)
    ensures forall p :: i < p < a.Length ==> a[p] == old(a[p])
  {
    ghost var pre := a[..];
    var j := ShiftDown(a, i, (e: Entry) => e.0);
    assert forall p, q :: 0 <= p < q < i ==> Before(pre[..i][p], pre[..i][q]);
    ShiftedOrdered(pre, a[..], i, j);
    ShiftedPermutes(pre, a[..], i, j);
  }

  /** The array after one pass is the one before with a[i] moved down to
      position j, past entries of larger value only and stopping behind an
      entry of no larger value: the prefix up to i is then ordered. */
  lemma ShiftedOrdered(pre: seq<Entry>, post: seq<Entry>, i: nat, j: nat)
    requires |post| == |pre| && j <= i < |pre|
    requires forall p, q :: 0 <= p < q < i ==> Before(pre[p], pre[q])
    requires forall p :: 0 <= p < i ==> pre[p].1 < pre[i].1
    requires forall p :: 0 <= p < j ==> post[p] == pre[p]
    requires post[j] == pre[i]
    requires forall p :: j < p <= i ==> post[p] == pre[p - 1]
    requires forall p :: j <= p < i ==> pre[i].0 < pre[p].0
    requires j > 0 ==> pre[j - 1].0 <= pre[i].0
    ensures forall p, q :: 0 <= p < q <= i ==> Before(post[p], post[q])
    ensures forall p :: 0 <= p <= i ==> post[p].1 <= pre[i].1
  {
    var x := pre[i];
    if j > 0 {
      assert Before(pre[j - 1], x);
      forall p | 0 <= p < j - 1 ensures Before(post[p], x) {
        assert Before(pre[p], pre[j - 1]);
      }
    }
    assert forall p :: 0 <= p < j ==> Before(post[p], post[j]);
    assert forall q :: j < q <= i ==> Before(post[j], post[q]);
    forall p, q | 0 <= p < q <= i && p != j && q != j ensures Before(post[p], post[q]) {
      var p', q' := if p < j then p else p - 1, if q < j then q else q - 1;
      assert post[p] == pre[p'] && post[q] == pre[q'] && p' < q' < i;
    }
  }

  // ---------------------------------------------------- order statistics

  /** The median of a sorted list: the middle element for odd n, the mean of
      the two middle elements for even n. */
  function Median(s: seq<real>): (m: real)
    requires |s| > 0
    ensures Sorted(s) ==> s[(|s| - 1) / 2] <= m <= s[|s| / 2]
  {
    var n := |s|;
    if n % 2 == 0 then (s[n / 2 - 1] + s[n / 2]) / 2.0 else s[n / 2]
  }

  /** In a sorted list the median is at least every element of the lower
      half and at most every element of the upper half; for odd n it is the
      middle element itself. */
  lemma MedianSplitsSorted(s: seq<real>)
    requires |s| > 0 && Sorted(s)
    ensures forall i :: 0 <= i <= (|s| - 1) / 2 ==> s[i] <= Median(s)
    ensures forall i :: |s| / 2 <= i < |s| ==> Median(s) <= s[i]
    ensures |s| % 2 == 1 ==> Median(s) == s[|s| / 2]
  {
  }

  /** The median of `sorted(data)` as `_calculate_basic_stats` computes it
      lies between `min(data)` and `max(data)`. */
  lemma MedianWithinRange(data: seq<real>)
    requires |data| > 0
    ensures Min(data) <= Median(Sort(data)) <= Max(data)
  {
    var s := Sort(data);
    MedianSplitsSorted(s);
    SortedFirstIsMin(data);
    SortedLastIsMax(data);
  }

  /** `_interpolate_percentile` on a sorted list and a 1-based position:
      the first element at or below position 1, the last at or beyond n,
      otherwise the linear interpolation between the elements at
      floor(position) and floor(position) + 1. (The source's guard for an
      upper index past the end cannot fire once position < n, so it is not
      modelled.) */
  function InterpolatePercentile(s: seq<real>, position: real): (r: real)
    requires |s| > 0
    ensures position <= 1.0 ==> r == s[0]
    ensures 1.0 < position && position >= |s| as real ==> r == s[|s| - 1]
    ensures 1.0 < position < |s| as real && position == position.Floor as real ==> r == s[position.Floor - 1]
  {
    if position <= 1.0 then s[0]
    else if position >= |s| as real then s[|s| - 1]
    else
      var lower := position.Floor - 1;
      Lerp(s[lower], s[lower + 1], position - position.Floor as real)
  }

  /** Strictly between positions 1 and n on a sorted list the result lies
      between the two neighbours it interpolates. */
  lemma InterpolateBetweenNeighbours(s: seq<real>, position: real)
    requires |s| > 0 && Sorted(s)
    requires 1.0 < position < |s| as real
    ensures var k := position.Floor;
      1 <= k < |s| && s[k - 1] <= InterpolatePercentile(s, position) <= s[k]
  {
    var k := position.Floor;
    assert k as real <= position < k as real + 1.0;
    assert 1 <= k < |s|;
    LerpBetween(s[k - 1], s[k], position - k as real);
  }

  /** lo + f * (hi - lo): the point a fraction f of the way from lo to hi. */
  function Lerp(lo: real, hi: real, f: real): real
  {
    lo + f * (hi - lo)
  }

  /** A fraction in [0, 1] lands between the end points. */
  lemma LerpBetween(lo: real, hi: real, f: real)
    requires lo <= hi && 0.0 <= f <= 1.0
    ensures lo <= Lerp(lo, hi, f) <= hi
  {
    MulMonoReal(0.0, f, hi - lo);
    MulMonoReal(f, 1.0, hi - lo);
  }

  /** A larger fraction lands no lower. */
  lemma LerpMonotone(lo: real, hi: real, f1: real, f2: real)
    requires lo <= hi && f1 <= f2
    ensures Lerp(lo, hi, f1) <= Lerp(lo, hi, f2)
  {
    MulMonoReal(f1, f2, hi - lo);
  }

  /** On a sorted list the interpolated percentile never decreases as the
      position grows, and always lies between the first and last elements. */
  lemma InterpolateMonotone(s: seq<real>, p1: real, p2: real)
    requires |s| > 0 && Sorted(s)
    requires p1 <= p2
    ensures s[0] <= InterpolatePercentile(s, p1) <= InterpolatePercentile(s, p2) <= s[|s| - 1]
  {
    var n := |s|;
    var k1, k2 := p1.Floor, p2.Floor;
    if 1.0 < p2 < n as real {
      InterpolateBetweenNeighbours(s, p2);
      assert s[0] <= s[k2 - 1];
    }
    if 1.0 < p1 < n as real {
      InterpolateBetweenNeighbours(s, p1);
      assert s[k1] <= s[n - 1];
      if p2 < n as real {
        assert k1 as real <= p1 && p2 < k2 as real + 1.0;
        if k1 == k2 {
          LerpMonotone(s[k1 - 1], s[k1], p1 - k1 as real, p2 - k2 as real);
        } else {
          assert k1 < k2 && s[k1] <= s[k2 - 1];
          assert InterpolatePercentile(s, p1) <= s[k1];
          assert s[k2 - 1] <= InterpolatePercentile(s, p2);
        }
      }
    }
  }

  /** Scaling by a non-negative factor preserves order. */
  lemma MulMonoReal(x: real, y: real, d: real)
    requires x <= y && d >= 0.0
    ensures x * d <= y * d
  {
    assert y * d - x * d == (y - x) * d;
  }

  // --------------------------------------------------------------- outliers

  datatype DataError = TooFewPoints | MissingParameter | EmptyData | UnknownMethod | LengthMismatch | NonPositiveStdDev

  /** The minimum sample size of the quartile-based analyses. */
  const MinQuartileSize := 4

  /** The elements of s strictly below lower or strictly above upper, in input order. */
  function Outside(s: seq<real>, lower: real, upper: real): (r: seq<real>)
    ensures forall x :: x in r <==> x in s && (x < lower || x > upper)
    ensures forall x :: x < lower || x > upper ==> multiset(r)[x] == multiset(s)[x]
    ensures forall x :: !(x < lower || x > upper) ==> multiset(r)[x] == 0
  {
    if |s| == 0 then []
    else
      assert s == [s[0]] + s[1..];
      var rest := Outside(s[1..], lower, upper);
      if s[0] < lower || s[0] > upper then [s[0]] + rest else rest
  }

  /** The quartiles of the data and the fences 1.5 IQR beyond them. */
  datatype Fences = Fences(q1: real, q3: real, iqr: real, lower: real, upper: real)

  /** The fences `_outliers_detection` derives: Q1 and Q3 interpolated at the
      1-based positions (n+1)/4 and 3(n+1)/4 of the sorted data. Q1 <= Q3, so
      the IQR is never negative and the lower fence is at most the upper one. */
  function FencesOf(data: seq<real>): (f: Fences)
    requires |data| >= MinQuartileSize
    ensures Min(data) <= f.q1 <= f.q3 <= Max(data)
    ensures 0.0 <= f.iqr == f.q3 - f.q1
    ensures f.lower <= f.q1 && f.q3 <= f.upper
  {
    var n := |data|;
    var s := Sort(data);
    var q1 := InterpolatePercentile(s, (n + 1) as real / 4.0);
    var q3 := InterpolatePercentile(s, 3.0 * (n + 1) as real / 4.0);
    InterpolatedWithinRange(data, (n + 1) as real / 4.0, 3.0 * (n + 1) as real / 4.0);
    var iqr := q3 - q1;
    Fences(q1, q3, iqr, q1 - 1.5 * iqr, q3 + 1.5 * iqr)
  }

  /** Interpolating the sorted data at two positions gives values in the same
      order, both between the minimum and the maximum. */
  lemma InterpolatedWithinRange(data: seq<real>, p1: real, p2: real)
    requires |data| > 0 && p1 <= p2
    ensures Min(data) <= InterpolatePercentile(Sort(data), p1)
    ensures InterpolatePercentile(Sort(data), p1) <= InterpolatePercentile(Sort(data), p2)
    ensures InterpolatePercentile(Sort(data), p2) <= Max(data)
  {
    InterpolateMonotone(Sort(data), p1, p2);
    SortedFirstIsMin(data);
    SortedLastIsMax(data);
  }

  /** What the outlier analysis reports. */
  datatype OutlierReport = OutlierReport(n: nat, fences: Fences, outliers: seq<real>)

  /** `_outliers_detection` on decoded data: a missing argument, then an
      empty list (refused while the data is decoded), then fewer than four
      points are errors; otherwise the outliers are the values strictly
      outside the fences, sorted in place. */
  method OutliersDetection(data: Option<seq<real>>) returns (r: Result<OutlierReport, DataError>)
    ensures data.None? <==> r == Err(MissingParameter)
    ensures data.Some? && |data.value| == 0 ==> r == Err(EmptyData)
    ensures data.Some? && 1 <= |data.value| < MinQuartileSize ==> r == Err(TooFewPoints)
    ensures r.Ok? <==> data.Some? && |data.value| >= MinQuartileSize
    ensures r.Ok? ==> r.value.n == |data.value| && r.value.fences == FencesOf(data.value)
    ensures r.Ok? ==> r.value.outliers == Sort(Outside(data.value, r.value.fences.lower, r.value.fences.upper))
  {
    if data.None? {
      return Err(MissingParameter);
    }
    var dataset := data.value;
    if |dataset| == 0 {
      return Err(EmptyData);
    }
    if |dataset| < MinQuartileSize {
      return Err(TooFewPoints);
    }
    var report := ReportOutliers(dataset);
    return Ok(report);
  }

  /** Past the guards: the fences, then the values outside them, copied out
      and sorted in place. */
  method ReportOutliers(dataset: seq<real>) returns (report: OutlierReport)
    requires |dataset| >= MinQuartileSize
    ensures report.n == |dataset| && report.fences == FencesOf(dataset)
    ensures report.outliers == Sort(Outside(dataset, report.fences.lower, report.fences.upper))
  {
    var f := FencesOf(dataset);
    var found := Outside(dataset, f.lower, f.upper);
    var a := new real[|found|](i requires 0 <= i < |found| => found[i]);
    assert a[..] == found;
    SortInPlace(a);
    report := OutlierReport(|dataset|, f, a[..]);
  }

  /** The reported outliers are sorted, and hold every value of the data
      strictly outside the fences, as often as it occurs there, and nothing else. */
  lemma OutlierListIsExact(data: seq<real>)
    requires |data| >= MinQuartileSize
    ensures var f := FencesOf(data);
      var o := Sort(Outside(data, f.lower, f.upper));
      Sorted(o) &&
      (forall x :: x in o <==> x in data && (x < f.lower || x > f.upper)) &&
      (forall x :: x < f.lower || x > f.upper ==> multiset(o)[x] == multiset(data)[x]) &&
      (forall x :: f.lower <= x <= f.upper ==> multiset(o)[x] == 0)
  {
    var f := FencesOf(data);
    var found := Outside(data, f.lower, f.upper);
    SameElements(found, Sort(found));
  }

  // ------------------------------------------------------------ correlation

  /** Python's `str.lower()` on ASCII letters; other characters are kept. */
  function Lower(s: string): (r: string)
    ensures |r| == |s|
    ensures forall i :: 0 <= i < |s| ==> r[i] == if 'A' <= s[i] <= 'Z' then (s[i] as int + 32) as char else s[i]
  {
    if |s| == 0 then [] else [if 'A' <= s[0] <= 'Z' then (s[0] as int + 32) as char else s[0]] + Lower(s[1..])
  }

  datatype CorrelationMethod = Pearson | Spearman

  /** The method name is absent (pearson by default) or names pearson or
      spearman in any letter case. */
  predicate KnownMethod(methodName: Option<string>)
  {
    methodName.None? || Lower(methodName.value) in ["pearson", "spearman"]
  }

  /** The guards of `_correlation`, in order: both datasets given, the method
      (default "pearson") is pearson or spearman in any letter case, each
      dataset is non-empty, the lengths agree, and there are at least two
      points. */
  function CorrelationGuard(data: Option<seq<real>>, data2: Option<seq<real>>, methodName: Option<string>)
    : (r: Result<CorrelationMethod, DataError>)
    ensures data.None? || data2.None? <==> r == Err(MissingParameter)
    ensures r.Ok? ==> |data.value| == |data2.value| >= 2
    ensures r.Ok? ==> (r.value == Pearson <==> methodName.None? || Lower(methodName.value) == "pearson")
    ensures r.Ok? ==> (r.value == Spearman <==> methodName.Some? && Lower(methodName.value) == "spearman")
    ensures data.Some? && data2.Some? && methodName.Some? && Lower(methodName.value) !in ["pearson", "spearman"] ==> r == Err(UnknownMethod)
    ensures (data.Some? && data2.Some? && |data.value| > 0 && |data2.value| > 0 &&
             |data.value| != |data2.value| && r.Err?) ==> r.error in {UnknownMethod, LengthMismatch}
    ensures r.Ok? <==> data.Some? && data2.Some? && KnownMethod(methodName) && |data.value| == |data2.value| >= 2
    ensures (data.Some? && data2.Some? && KnownMethod(methodName) && (|data.value| == 0 || |data2.value| == 0))
            ==> r == Err(EmptyData)
    ensures (data.Some? && data2.Some? && KnownMethod(methodName) && 0 < |data.value| && 0 < |data2.value| &&
             |data.value| != |data2.value|) ==> r == Err(LengthMismatch)
    ensures (data.Some? && data2.Some? && KnownMethod(methodName) && |data.value| == |data2.value| == 1)
            ==> r == Err(TooFewPoints)
  {
    if data.None? || data2.None? then Err(MissingParameter)
    else
      var m := if methodName.None? then "pearson" else Lower(methodName.value);
      if m !in ["pearson", "spearman"] then Err(UnknownMethod)
      else if |data.value| == 0 || |data2.value| == 0 then Err(EmptyData)
      else if |data.value| != |data2.value| then Err(LengthMismatch)
      else if |data.value| < 2 then Err(TooFewPoints)
      else if m == "pearson" then Ok(Pearson)
      else Ok(Spearman)
  }

  // ---------------------------------------------------------------- z-score

  /** The interpretation `_z_score` attaches to |z|. */
  datatype Band = WithinOne | WithinTwo | WithinThree | Beyond

  datatype ZScore = ZScore(z: real, band: Band)

  function Abs(x: real): real
  {
    if x < 0.0 then -x else x
  }

  /** `_z_score`: all three parameters are required and std_dev must be
      positive; z = (value - mean) / std_dev, and the band is the first of
      |z| <= 1, <= 2, <= 3 that holds, else beyond. */
  function ZScoreOf(value: Option<real>, mean: Option<real>, stdDev: Option<real>): (r: Result<ZScore, DataError>)
    ensures value.None? || mean.None? || stdDev.None? <==> r == Err(MissingParameter)
    ensures value.Some? && mean.Some? && stdDev.Some? ==> (stdDev.value <= 0.0 <==> r == Err(NonPositiveStdDev))
    ensures value.Some? && mean.Some? && stdDev.Some? && stdDev.value > 0.0 ==> r.Ok?
    ensures r.Ok? ==> r.value.z * stdDev.value == value.value - mean.value
    ensures r.Ok? ==> (r.value.band == WithinOne <==> Abs(r.value.z) <= 1.0)
    ensures r.Ok? ==> (r.value.band == WithinTwo <==> 1.0 < Abs(r.value.z) <= 2.0)
    ensures r.Ok? ==> (r.value.band == WithinThree <==> 2.0 < Abs(r.value.z) <= 3.0)
    ensures r.Ok? ==> (r.value.band == Beyond <==> 3.0 < Abs(r.value.z))
  {
    if value.None? || mean.None? || stdDev.None? then Err(MissingParameter)
    else if stdDev.value <= 0.0 then Err(NonPositiveStdDev)
    else
      var z := (value.value - mean.value) / stdDev.value;
      var band :=
        if Abs(z) <= 1.0 then WithinOne
        else if Abs(z) <= 2.0 then WithinTwo
        else if Abs(z) <= 3.0 then WithinThree
        else Beyond;
      Ok(ZScore(z, band))
  }

  /** The band depends only on the distance from the mean in standard
      deviations: a value and its mirror image about the mean get the same band. */
  lemma ZScoreBandSymmetric(v: real, mean: real, sd: real)
    requires sd > 0.0
    ensures ZScoreOf(Some(v), Some(mean), Some(sd)).value.band == ZScoreOf(Some(2.0 * mean - v), Some(mean), Some(sd)).value.band
  {
    var z1 := ZScoreOf(Some(v), Some(mean), Some(sd)).value.z;
    var z2 := ZScoreOf(Some(2.0 * mean - v), Some(mean), Some(sd)).value.z;
    assert (z1 + z2) * sd == 0.0;
    assert z1 + z2 == 0.0;
  }
}
