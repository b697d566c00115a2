/**
  The statistics engine: `SummaryStatistics.from_int_seq` reduces a sequence of token
  counts to one immutable record. Mean, median, percentiles and variance are exact
  `real`s; the square root that turns the variance into the standard deviation is not
  modelled, so the record keeps the variance in its place.
*/
module Stats {

  /** The default threshold: the token limit of the reference embedding model. */
  const AdaMaxTokens: int := 8191

  /**
    One summary record. `variance` is the sample variance, the square of the source's
    `stdev` field.
  */
  datatype SummaryStatistics = SummaryStatistics(
    collname: string,
    nsmpl: int,
    mean: real,
    median: real,
    variance: real,
    min: int,
    max: int,
    percentile05: real,
    percentile95: real,
    aboveThreshold: int,
    threshold: int)

  /** The invariant every record built from at least two samples satisfies. */
  predicate WellFormed(r: SummaryStatistics) {
    && r.nsmpl >= 2
    && r.min as real <= r.percentile05 <= r.median <= r.percentile95 <= r.max as real
    && r.min as real <= r.mean <= r.max as real
    && r.variance >= 0.0
    && 0 <= r.aboveThreshold <= r.nsmpl
    && (r.threshold >= r.max ==> r.aboveThreshold == 0)
    && (r.threshold < r.min ==> r.aboveThreshold == r.nsmpl)
  }

  // ---------------------------------------------------------------------------
  // Elementary reductions

  function Sum(s: seq<int>): int
  {
    if s == [] then 0 else Sum(s[..|s| - 1]) + s[|s| - 1]
  }

  /** Python's `min(seq)`: an element of `s` no larger than any other. */
  function SeqMin(s: seq<int>): (m: int)
    requires |s| > 0
    ensures m in s
    ensures forall i :: 0 <= i < |s| ==> m <= s[i]
  {
    if |s| == 1 then s[0]
    else
      var rest := SeqMin(s[1..]);
      if s[0] <= rest then s[0] else rest
  }

  /** Python's `max(seq)`: an element of `s` no smaller than any other. */
  function SeqMax(s: seq<int>): (m: int)
    requires |s| > 0
    ensures m in s
    ensures forall i :: 0 <= i < |s| ==> s[i] <= m
  {
    if |s| == 1 then s[0]
    else
      var rest := SeqMax(s[1..]);
      if s[0] >= rest then s[0] else rest
  }

  /** `sum(1 for x in seq if x > threshold)`. */
  function CountAbove(s: seq<int>, threshold: int): nat
  {
    if s == [] then 0
    else CountAbove(s[..|s| - 1], threshold) + (if s[|s| - 1] > threshold then 1 else 0)
  }

  // ---------------------------------------------------------------------------
  // Ordering: the sorted copy that `statistics.median` and `numpy.percentile` work on

  predicate IsSorted(s: seq<int>) {
    forall i, j :: 0 <= i <= j < |s| ==> s[i] <= s[j]
  }

  /** Inserts `x` into a sorted sequence, keeping it sorted and adding exactly `x`. */
  function Insert(x: int, s: seq<int>): (r: seq<int>)
    requires IsSorted(s)
    ensures IsSorted(r)
    ensures multiset(r) == multiset(s) + multiset{x}
  {
    if s == [] || x <= s[0] then
      SortedCons(x, s);
      [x] + s
    else
      SortedTail(s);
      var t := Insert(x, s[1..]);
      MultisetTail(s);
      InsertHead(x, s, t);
      SortedCons(s[0], t);
      [s[0]] + t
  }

  /** A value no larger than the head of a sorted sequence can go in front of it. */
  lemma SortedCons(y: int, t: seq<int>)
    requires IsSorted(t) && (t == [] || y <= t[0])
    ensures IsSorted([y] + t)
  {
    var u := [y] + t;
    forall i, j | 0 <= i <= j < |u| ensures u[i] <= u[j] {
      if i > 0 {
        assert u[i] == t[i - 1] && u[j] == t[j - 1];
      } else if j > 0 {
        assert u[j] == t[j - 1];
      }
    }
  }

  /** The head of the insertion into the tail is no smaller than the head of `s`. */
  lemma InsertHead(x: int, s: seq<int>, t: seq<int>)
    requires IsSorted(s) && |s| > 0 && s[0] < x
    requires multiset(t) == multiset(s[1..]) + multiset{x}
    ensures t == [] || s[0] <= t[0]
  {
    if t != [] {
      assert t[0] in multiset(t);
      if t[0] != x {
        assert t[0] in multiset(s[1..]);
        var k :| 0 <= k < |s[1..]| && s[1..][k] == t[0];
        assert s[k + 1] == t[0];
      }
    }
  }

  /** A sorted permutation of `s`. */
  function Sort(s: seq<int>): (r: seq<int>)
    ensures IsSorted(r)
    ensures multiset(r) == multiset(s)
    ensures |r| == |s|
  {
    if s == [] then []
    else
      assert s == [s[0]] + s[1..];
      Insert(s[0], Sort(s[1..]))
  }

  /** The head of a sorted sequence is below every element of it. */
  lemma SortedHeadIsLeast(a: seq<int>, x: int)
    requires IsSorted(a) && x in multiset(a)
    ensures |a| > 0 && a[0] <= x
  {
    var i :| 0 <= i < |a| && a[i] == x;
  }

  lemma SortedTail(a: seq<int>)
    requires IsSorted(a) && |a| > 0
    ensures IsSorted(a[1..])
  {
    forall i, j | 0 <= i <= j < |a| - 1 ensures a[1..][i] <= a[1..][j] {
      assert a[1..][i] == a[i + 1] && a[1..][j] == a[j + 1];
    }
  }

  lemma MultisetTail(a: seq<int>)
    requires |a| > 0
    ensures multiset(a[1..]) == multiset(a) - multiset{a[0]}
  {
    assert a == [a[0]] + a[1..];
  }

  /** A multiset has one sorted arrangement: so the sorted copy does not depend on how it is built. */
  lemma {:induction false} SortedPermutationUnique(a: seq<int>, b: seq<int>)
    requires IsSorted(a) && IsSorted(b)
    requires multiset(a) == multiset(b)
    ensures a == b
  {
    if a == [] {
      assert |multiset(b)| == 0;
    } else {
      SameHead(a, b);
      MultisetTail(a);
      MultisetTail(b);
      SortedTail(a);
      SortedTail(b);
      SortedPermutationUnique(a[1..], b[1..]);
      assert a == [a[0]] + a[1..];
      assert b == [b[0]] + b[1..];
    }
  }

  /** Two sorted arrangements of one non-empty multiset start with the same (least) element. */
  lemma SameHead(a: seq<int>, b: seq<int>)
    requires IsSorted(a) && IsSorted(b) && a != []
    requires multiset(a) == multiset(b)
    ensures b != [] && a[0] == b[0]
  {
    assert a[0] in multiset(a);
    SortedHeadIsLeast(b, a[0]);
    assert b[0] in multiset(b);
    SortedHeadIsLeast(a, b[0]);
  }

  /** The ends of a sorted permutation of `s` are the minimum and the maximum of `s`. */
  lemma SortedEnds(s: seq<int>, sorted: seq<int>)
    requires |s| > 0
    requires IsSorted(sorted) && multiset(sorted) == multiset(s)
    ensures |sorted| == |s|
    ensures sorted[0] == SeqMin(s) && sorted[|sorted| - 1] == SeqMax(s)
  {
    assert |sorted| == |multiset(sorted)| == |multiset(s)| == |s|;
    var lo, hi := SeqMin(s), SeqMax(s);
    assert lo in multiset(sorted) && hi in multiset(sorted);
    assert sorted[0] in multiset(s) && sorted[|s| - 1] in multiset(s);
  }

  // ---------------------------------------------------------------------------
  // Median and percentiles of a sorted sequence

  /** `statistics.median` on sorted data: the middle element, or the mean of the two middle ones. */
  function Median(sorted: seq<int>): real
    requires |sorted| > 0
  {
    var n := |sorted|;
    if n % 2 == 1 then sorted[n / 2] as real
    else (sorted[n / 2 - 1] + sorted[n / 2]) as real / 2.0
  }

  /**
    The value at the fractional rank `m / 100` of a sorted sequence, interpolated linearly
    between the two neighbouring ranks (numpy's "linear" method, Hyndman and Fan type 7).
  */
  function RankValue(sorted: seq<int>, m: nat): real
    requires |sorted| > 0 && m <= 100 * (|sorted| - 1)
  {
    var k := m / 100;
    var gamma := (m % 100) as real / 100.0;
    if k + 1 < |sorted| then sorted[k] as real + gamma * (sorted[k + 1] - sorted[k]) as real
    else sorted[k] as real
  }

  lemma ScaleRank(p: nat, q: nat, n: nat)
    requires p <= q
    ensures p * n <= q * n
  {
  }

  /** `numpy.percentile(seq, p)` on sorted data: the rank `p / 100 * (n - 1)`, interpolated. */
  function Percentile(sorted: seq<int>, p: nat): real
    requires |sorted| > 0 && p <= 100
  {
    ScaleRank(p, 100, |sorted| - 1);
    RankValue(sorted, p * (|sorted| - 1))
  }

  /** An interpolated value lies between the two ranks it interpolates. */
  lemma RankValueBetween(sorted: seq<int>, m: nat)
    requires IsSorted(sorted)
    requires |sorted| > 0 && m <= 100 * (|sorted| - 1)
    ensures m / 100 < |sorted|
    ensures sorted[m / 100] as real <= RankValue(sorted, m)
    ensures m / 100 + 1 < |sorted| ==> RankValue(sorted, m) <= sorted[m / 100 + 1] as real
    ensures m / 100 + 1 == |sorted| ==> RankValue(sorted, m) == sorted[m / 100] as real
  {
    var k := m / 100;
    var gamma := (m % 100) as real / 100.0;
    if k + 1 < |sorted| {
      var d := (sorted[k + 1] - sorted[k]) as real;
      assert 0.0 <= gamma <= 1.0 && d >= 0.0;
      FractionOfGap(gamma, d);
      assert RankValue(sorted, m) == sorted[k] as real + gamma * d;
    }
  }

  /** A fraction between 0 and 1 of a non-negative gap is at most the gap. */
  lemma FractionOfGap(gamma: real, d: real)
    requires 0.0 <= gamma <= 1.0 && d >= 0.0
    ensures 0.0 <= gamma * d <= d
  {
    assert d - gamma * d == (1.0 - gamma) * d;
  }

  /** Interpolated ranks are monotone: a larger rank never gives a smaller value. */
  lemma RankValueMonotone(sorted: seq<int>, m1: nat, m2: nat)
    requires IsSorted(sorted)
    requires |sorted| > 0 && m1 <= m2 <= 100 * (|sorted| - 1)
    ensures RankValue(sorted, m1) <= RankValue(sorted, m2)
  {
    var k1, k2 := m1 / 100, m2 / 100;
    RankValueBetween(sorted, m1);
    RankValueBetween(sorted, m2);
    if k1 == k2 {
      if k1 + 1 < |sorted| {
        var d := (sorted[k1 + 1] - sorted[k1]) as real;
        SameRankFraction(m1, m2);
        var g1 := (m1 % 100) as real / 100.0;
        var g2 := (m2 % 100) as real / 100.0;
        assert d >= 0.0;
        ScaleMonotone(g1, g2, d);
        assert RankValue(sorted, m1) == sorted[k1] as real + g1 * d;
        assert RankValue(sorted, m2) == sorted[k1] as real + g2 * d;
      }
    } else {
      assert k1 < k2;
      assert k1 + 1 < |sorted|;
      assert sorted[k1 + 1] <= sorted[k2];
    }
  }

  /** Two ranks in the same unit step: the smaller has the smaller fraction. */
  lemma SameRankFraction(m1: nat, m2: nat)
    requires m1 <= m2 && m1 / 100 == m2 / 100
    ensures (m1 % 100) as real / 100.0 <= (m2 % 100) as real / 100.0
  {
    assert m1 == 100 * (m1 / 100) + m1 % 100;
    assert m2 == 100 * (m2 / 100) + m2 % 100;
    assert m1 % 100 <= m2 % 100;
  }

  lemma ScaleMonotone(g1: real, g2: real, d: real)
    requires g1 <= g2 && d >= 0.0
    ensures g1 * d <= g2 * d
  {
    assert g2 * d - g1 * d == (g2 - g1) * d;
  }

  /** `numpy.percentile` is monotone in the requested percentage. */
  lemma PercentileMonotone(sorted: seq<int>, p: nat, q: nat)
    requires IsSorted(sorted)
    requires |sorted| > 0 && p <= q <= 100
    ensures Percentile(sorted, p) <= Percentile(sorted, q)
  {
    ScaleRank(p, q, |sorted| - 1);
    ScaleRank(q, 100, |sorted| - 1);
    RankValueMonotone(sorted, p * (|sorted| - 1), q * (|sorted| - 1));
  }

  /** The 0th and 100th percentiles are the first and last elements of the sorted data. */
  lemma PercentileEnds(sorted: seq<int>)
    requires IsSorted(sorted) && |sorted| > 0
    ensures Percentile(sorted, 0) == sorted[0] as real
    ensures Percentile(sorted, 100) == sorted[|sorted| - 1] as real
  {
    var n := |sorted|;
    assert 100 * (n - 1) / 100 == n - 1;
    assert 100 * (n - 1) % 100 == 0;
  }

  /** The median `statistics.median` computes is the 50th percentile `numpy.percentile` computes. */
  lemma MedianIsPercentile50(sorted: seq<int>)
    requires |sorted| > 0
    ensures Median(sorted) == Percentile(sorted, 50)
  {
    var n := |sorted|;
    var m := 50 * (n - 1);
    assert Percentile(sorted, 50) == RankValue(sorted, m);
    if n % 2 == 1 {
      var j := n / 2;
      assert n - 1 == 2 * j;
      assert m == 100 * j;
      assert m / 100 == j && m % 100 == 0;
      assert RankValue(sorted, m) == sorted[j] as real;
    } else {
      var j := n / 2 - 1;
      assert n - 1 == 2 * j + 1;
      assert m == 100 * j + 50;
      assert m / 100 == j && m % 100 == 50;
      assert j + 1 < n;
      HalfWay(sorted[j], sorted[j + 1]);
      assert RankValue(sorted, m) == sorted[j] as real + (50 as real / 100.0) * (sorted[j + 1] - sorted[j]) as real;
    }
  }

  /** Interpolating half-way between two values gives their mean. */
  lemma HalfWay(a: int, b: int)
    ensures a as real + (50 as real / 100.0) * (b - a) as real == (a + b) as real / 2.0
  {
    assert 50 as real / 100.0 == 0.5;
  }

  /**
    The ordering chain of the record: on sorted data, first element <= 5th percentile <=
    median <= 95th percentile <= last element.
  */
  lemma OrderingChain(sorted: seq<int>)
    requires IsSorted(sorted) && |sorted| > 0
    ensures sorted[0] as real <= Percentile(sorted, 5) <= Median(sorted)
    ensures Median(sorted) <= Percentile(sorted, 95) <= sorted[|sorted| - 1] as real
  {
    PercentileEnds(sorted);
    MedianIsPercentile50(sorted);
    PercentileMonotone(sorted, 0, 5);
    PercentileMonotone(sorted, 5, 50);
    PercentileMonotone(sorted, 50, 95);
    PercentileMonotone(sorted, 95, 100);
  }

  // ---------------------------------------------------------------------------
  // Mean and variance

  /** `statistics.mean`: the exact arithmetic mean. */
  function Mean(s: seq<int>): real
    requires |s| > 0
  {
    Sum(s) as real / |s| as real
  }

  /** A sum of values between `lo` and `hi` lies between `|s| * lo` and `|s| * hi`. */
  lemma {:induction false} SumBounds(s: seq<int>, lo: int, hi: int)
    requires forall i :: 0 <= i < |s| ==> lo <= s[i] <= hi
    ensures |s| * lo <= Sum(s) <= |s| * hi
  {
    if s != [] {
      SumBounds(s[..|s| - 1], lo, hi);
    }
  }

  /** Dividing by a positive count keeps a total's bounds. */
  lemma DivideBounds(total: real, n: real, lo: real, hi: real)
    requires n > 0.0 && n * lo <= total <= n * hi
    ensures lo <= total / n <= hi
  {
    assert total / n - lo == (total - n * lo) / n;
    assert hi - total / n == (n * hi - total) / n;
  }

  lemma IntProductAsReal(a: int, b: int)
    ensures (a * b) as real == a as real * b as real
  {
  }

  lemma MeanFromSum(s: seq<int>, lo: int, hi: int)
    requires |s| > 0
    requires |s| * lo <= Sum(s) <= |s| * hi
    ensures lo as real <= Mean(s) <= hi as real
    ensures Mean(s) * |s| as real == Sum(s) as real
  {
    var n := |s| as real;
    var total := Sum(s) as real;
    IntProductAsReal(|s|, lo);
    IntProductAsReal(|s|, hi);
    DivideBounds(total, n, lo as real, hi as real);
    assert Mean(s) == total / n;
  }

  /** The mean lies between any bounds of the samples, and the count times the mean is the sum. */
  lemma MeanBounds(s: seq<int>, lo: int, hi: int)
    requires |s| > 0
    requires forall i :: 0 <= i < |s| ==> lo <= s[i] <= hi
    ensures lo as real <= Mean(s) <= hi as real
    ensures Mean(s) * |s| as real == Sum(s) as real
  {
    SumBounds(s, lo, hi);
    MeanFromSum(s, lo, hi);
  }

  /** The mean lies between the minimum and the maximum. */
  lemma MeanBetween(s: seq<int>)
    requires |s| > 0
    ensures SeqMin(s) as real <= Mean(s) <= SeqMax(s) as real
    ensures Mean(s) * |s| as real == Sum(s) as real
  {
    MeanBounds(s, SeqMin(s), SeqMax(s));
  }

  /** The sum of squared deviations from `mu`. */
  function SquaredDeviations(s: seq<int>, mu: real): real
  {
    if s == [] then 0.0
    else
      var d := s[|s| - 1] as real - mu;
      SquaredDeviations(s[..|s| - 1], mu) + d * d
  }

  /** A sum of squares is never negative. */
  lemma {:induction false} SquaredDeviationsNonNegative(s: seq<int>, mu: real)
    ensures SquaredDeviations(s, mu) >= 0.0
  {
    if s != [] {
      SquaredDeviationsNonNegative(s[..|s| - 1], mu);
      var d := s[|s| - 1] as real - mu;
      assert d * d >= 0.0;
    }
  }

  /** The sample variance `statistics.variance` (divisor n - 1), defined from two samples on. */
  function Variance(s: seq<int>): (v: real)
    requires |s| >= 2
    ensures v >= 0.0
  {
    SquaredDeviationsNonNegative(s, Mean(s));
    SquaredDeviations(s, Mean(s)) / (|s| - 1) as real
  }

  // ---------------------------------------------------------------------------
  // Counting above the threshold

  /** The count above a threshold never exceeds the number of samples. */
  lemma {:induction false} CountAboveAtMostLength(s: seq<int>, threshold: int)
    ensures CountAbove(s, threshold) <= |s|
  {
    if s != [] {
      CountAboveAtMostLength(s[..|s| - 1], threshold);
    }
  }

  /** The count is exactly zero when no sample exceeds the threshold, and |s| when all do. */
  lemma {:induction false} CountAboveExtremes(s: seq<int>, threshold: int)
    ensures (forall i :: 0 <= i < |s| ==> s[i] <= threshold) ==> CountAbove(s, threshold) == 0
    ensures (forall i :: 0 <= i < |s| ==> s[i] > threshold) ==> CountAbove(s, threshold) == |s|
  {
    if s != [] {
      CountAboveExtremes(s[..|s| - 1], threshold);
    }
  }

  /** Counting distributes over concatenation. */
  lemma {:induction false} CountAboveAppend(a: seq<int>, b: seq<int>, threshold: int)
    ensures CountAbove(a + b, threshold) == CountAbove(a, threshold) + CountAbove(b, threshold)
  {
    if b != [] {
      assert (a + b)[..|a + b| - 1] == a + b[..|b| - 1];
      CountAboveAppend(a, b[..|b| - 1], threshold);
    } else {
      assert a + b == a;
    }
  }

  /** Taking one element out of a sequence takes it out of its multiset and out of its count. */
  lemma RemoveAt(b: seq<int>, i: nat, threshold: int)
    requires i < |b|
    ensures multiset(b[..i] + b[i + 1..]) == multiset(b) - multiset{b[i]}
    ensures CountAbove(b, threshold)
         == CountAbove(b[..i] + b[i + 1..], threshold) + (if b[i] > threshold then 1 else 0)
  {
    var x := b[i];
    assert b == b[..i] + [x] + b[i + 1..];
    assert multiset(b) == multiset(b[..i]) + multiset{x} + multiset(b[i + 1..]);
    CountAboveRemoveAt(b, i, threshold);
  }

  lemma CountAboveRemoveAt(b: seq<int>, i: nat, threshold: int)
    requires i < |b|
    ensures CountAbove(b, threshold)
         == CountAbove(b[..i] + b[i + 1..], threshold) + (if b[i] > threshold then 1 else 0)
  {
    var x := b[i];
    assert b == b[..i] + ([x] + b[i + 1..]);
    CountAboveAppend(b[..i], [x] + b[i + 1..], threshold);
    CountAboveAppend([x], b[i + 1..], threshold);
    CountAboveAppend(b[..i], b[i + 1..], threshold);
    assert [x][..0] == [];
  }

  /** The count depends only on the multiset of samples, not on their order. */
  lemma {:induction false} CountAbovePermutation(a: seq<int>, b: seq<int>, threshold: int)
    requires multiset(a) == multiset(b)
    ensures CountAbove(a, threshold) == CountAbove(b, threshold)
  {
    if a != [] {
      var x := a[|a| - 1];
      var i := IndexOf(b, x, multiset(a));
      RemoveAt(b, i, threshold);
      LastOut(a);
      CountAbovePermutation(a[..|a| - 1], b[..i] + b[i + 1..], threshold);
    }
  }

  /** A position of `x` in `b`, when `x` is the last of a sequence with the same multiset. */
  lemma IndexOf(b: seq<int>, x: int, m: multiset<int>) returns (i: nat)
    requires m == multiset(b) && x in m
    ensures i < |b| && b[i] == x
  {
    i :| 0 <= i < |b| && b[i] == x;
  }

  /** Dropping the last sample drops it from the multiset. */
  lemma LastOut(a: seq<int>)
    requires a != []
    ensures multiset(a[..|a| - 1]) == multiset(a) - multiset{a[|a| - 1]}
  {
    assert a == a[..|a| - 1] + [a[|a| - 1]];
  }

  /** Raising the threshold never increases the count. */
  lemma {:induction false} CountAboveAntitone(s: seq<int>, t1: int, t2: int)
    requires t1 <= t2
    ensures CountAbove(s, t2) <= CountAbove(s, t1)
  {
    if s != [] {
      CountAboveAntitone(s[..|s| - 1], t1, t2);
    }
  }

  /** The ordering chain, stated on the samples themselves. */
  lemma SampleOrderingChain(s: seq<int>)
    requires |s| > 0
    ensures SeqMin(s) as real <= Percentile(Sort(s), 5) <= Median(Sort(s))
    ensures Median(Sort(s)) <= Percentile(Sort(s), 95) <= SeqMax(s) as real
  {
    SortedEnds(s, Sort(s));
    OrderingChain(Sort(s));
  }

  /** The counting facts the record's invariant states, on the samples themselves. */
  lemma CountAboveBounds(s: seq<int>, threshold: int)
    requires |s| > 0
    ensures CountAbove(s, threshold) <= |s|
    ensures threshold >= SeqMax(s) ==> CountAbove(s, threshold) == 0
    ensures threshold < SeqMin(s) ==> CountAbove(s, threshold) == |s|
  {
    CountAboveAtMostLength(s, threshold);
    CountAboveExtremes(s, threshold);
  }

  // ---------------------------------------------------------------------------
  // The record

  /**
    `SummaryStatistics.from_int_seq(collname, seq, threshold)`. The source needs two samples
    at least: `statistics.stdev` raises on fewer.
  */
  function FromIntSeq(collname: string, s: seq<int>, threshold: int): (r: SummaryStatistics)
    requires |s| >= 2
    ensures WellFormed(r)
    ensures r.collname == collname && r.threshold == threshold
    ensures r.nsmpl == |s|
    ensures r.min in s && r.max in s
    ensures forall i :: 0 <= i < |s| ==> r.min <= s[i] <= r.max
    ensures r.aboveThreshold == CountAbove(s, threshold)
  {
    var sorted := Sort(s);
    SampleOrderingChain(s);
    MeanBetween(s);
    CountAboveBounds(s, threshold);
    SummaryStatistics(
      collname := collname,
      nsmpl := |s|,
      mean := Mean(s),
      median := Median(sorted),
      variance := Variance(s),
      min := SeqMin(s),
      max := SeqMax(s),
      percentile05 := Percentile(sorted, 5),
      percentile95 := Percentile(sorted, 95),
      aboveThreshold := CountAbove(s, threshold),
      threshold := threshold)
  }

  /** `summary_statistics(collname, token_lengths)`: the record under the default threshold 8191. */
  function SummaryStatisticsOf(collname: string, tokenLengths: seq<int>): (r: SummaryStatistics)
    requires |tokenLengths| >= 2
    ensures WellFormed(r)
    ensures r.threshold == 8191 && r.collname == collname && r.nsmpl == |tokenLengths|
    ensures r.aboveThreshold == CountAbove(tokenLengths, 8191)
  {
    FromIntSeq(collname, tokenLengths, AdaMaxTokens)
  }

  /**
    The median and the percentiles of the record are those of ANY sorted permutation of
    the samples: the middle element (or the mean of the two middle ones), and the values
    interpolated at ranks 5/100 and 95/100 of (n - 1).
  */
  lemma RecordOrderStatistics(collname: string, s: seq<int>, threshold: int, sorted: seq<int>)
    requires |s| >= 2
    requires IsSorted(sorted) && multiset(sorted) == multiset(s)
    ensures |sorted| == |s|
    ensures FromIntSeq(collname, s, threshold).median == Median(sorted)
    ensures FromIntSeq(collname, s, threshold).percentile05 == Percentile(sorted, 5)
    ensures FromIntSeq(collname, s, threshold).percentile95 == Percentile(sorted, 95)
  {
    SortedPermutationUnique(Sort(s), sorted);
  }

  /** Reordering the samples changes nothing in the record. */
  lemma RecordOrderInsensitive(collname: string, a: seq<int>, b: seq<int>, threshold: int)
    requires |a| >= 2 && multiset(a) == multiset(b)
    ensures |b| >= 2
    ensures FromIntSeq(collname, a, threshold).median == FromIntSeq(collname, b, threshold).median
    ensures FromIntSeq(collname, a, threshold).percentile05 == FromIntSeq(collname, b, threshold).percentile05
    ensures FromIntSeq(collname, a, threshold).percentile95 == FromIntSeq(collname, b, threshold).percentile95
    ensures FromIntSeq(collname, a, threshold).aboveThreshold == FromIntSeq(collname, b, threshold).aboveThreshold
    ensures FromIntSeq(collname, a, threshold).min == FromIntSeq(collname, b, threshold).min
    ensures FromIntSeq(collname, a, threshold).max == FromIntSeq(collname, b, threshold).max
  {
    assert |a| == |multiset(a)| == |multiset(b)| == |b|;
    SortedPermutationUnique(Sort(a), Sort(b));
    CountAbovePermutation(a, b, threshold);
    SortedEnds(a, Sort(a));
    SortedEnds(b, Sort(b));
  }
}
