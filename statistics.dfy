/**
 * The Statistics namespace of vajra.hpp: total functions over a sequence of
 * samples. Samples are modelled as mathematical reals, so accumulation order
 * and IEEE rounding do not matter here; std::sort on a by-value copy is the
 * sorted permutation Sort(s).
 */
module Statistics {

  /** Non-decreasing order. */
  predicate Sorted(s: seq<real>)
  {
    forall i, j :: 0 <= i < j < |s| ==> s[i] <= s[j]
  }

  /** std::accumulate starting from 0.0, adding f(v) for every sample v. */
  function Accumulate(s: seq<real>, f: real -> real): real
  {
    if s == [] then 0.0 else f(s[0]) + Accumulate(s[1..], f)
  }

  function Identity(x: real): real { x }

  function Square(x: real): real { x * x }

  /** Squared distance from m, the summand of the variance. */
  function SquaredDeviation(m: real): real -> real
  {
    x => Square(x - m)
  }

  /** Statistics::sum: the total of the samples (with SumAppend, of every split). */
  function Sum(s: seq<real>): (r: real)
    ensures s == [] ==> r == 0.0
    ensures |s| == 1 ==> r == s[0]
  {
    assert |s| == 1 ==> s[1..] == [] && Accumulate(s[1..], Identity) == 0.0;
    Accumulate(s, Identity)
  }

  lemma {:induction false} AccumulateAppend(a: seq<real>, b: seq<real>, f: real -> real)
    ensures Accumulate(a + b, f) == Accumulate(a, f) + Accumulate(b, f)
    decreases |a|
  {
    if a == [] {
      assert a + b == b;
    } else {
      assert (a + b)[1..] == a[1..] + b;
      AccumulateAppend(a[1..], b, f);
    }
  }

  /** Taking one element out of the sequence takes its summand out of the total. */
  lemma AccumulateRemove(b: seq<real>, j: nat, f: real -> real)
    requires j < |b|
    ensures Accumulate(b, f) == f(b[j]) + Accumulate(b[..j] + b[j + 1..], f)
  {
    var front, x, back := b[..j], b[j], b[j + 1..];
    assert b == front + ([x] + back);
    assert Accumulate([x] + back, f) == f(x) + Accumulate(back, f) by {
      assert ([x] + back)[1..] == back;
    }
    AccumulateAppend(front, [x] + back, f);
    AccumulateAppend(front, back, f);
  }

  /** The accumulated value depends only on the multiset of samples. */
  lemma {:induction false} AccumulatePermutation(a: seq<real>, b: seq<real>, f: real -> real)
    requires multiset(a) == multiset(b)
    ensures Accumulate(a, f) == Accumulate(b, f)
    decreases |a|
  {
    if a == [] {
      assert |b| == |multiset(b)| == 0;
    } else {
      var x := a[0];
      assert x in multiset(b);
      var j :| 0 <= j < |b| && b[j] == x;
      var rest := b[..j] + b[j + 1..];
      AccumulateRemove(b, j, f);
      assert b == b[..j] + [x] + b[j + 1..];
      assert multiset(rest) == multiset(b) - multiset{x};
      assert a == [x] + a[1..];
      assert multiset(a[1..]) == multiset(a) - multiset{x};
      AccumulatePermutation(a[1..], rest, f);
    }
  }

  /** Every summand in [lo, hi] puts the total in [n*lo, n*hi]. */
  lemma {:induction false} AccumulateBounds(s: seq<real>, f: real -> real, lo: real, hi: real)
    requires forall i :: 0 <= i < |s| ==> lo <= f(s[i]) <= hi
    ensures (|s| as real) * lo <= Accumulate(s, f) <= (|s| as real) * hi
    decreases |s|
  {
    if s != [] {
      AccumulateBounds(s[1..], f, lo, hi);
    }
  }

  /** A sum of squares is never negative. */
  lemma {:induction false} SquaresNonNegative(s: seq<real>, m: real)
    ensures Accumulate(s, SquaredDeviation(m)) >= 0.0
    decreases |s|
  {
    if s != [] {
      var d := s[0] - m;
      assert SquaredDeviation(m)(s[0]) == Square(d) >= 0.0;
      SquaresNonNegative(s[1..], m);
    }
  }

  // ---------------------------------------------------------------- sorting

  function Insert(x: real, s: seq<real>): (r: seq<real>)
    requires Sorted(s)
    ensures Sorted(r) && multiset(r) == multiset(s) + multiset{x}
    decreases |s|
  {
    if s == [] then [x]
    else if x <= s[0] then [x] + s
    else
      var tail := Insert(x, s[1..]);
      assert s == [s[0]] + s[1..];
      InsertHead(x, s, tail);
      [s[0]] + tail
  }

  /** Putting s[0] in front of the insertion into s[1..] keeps the order. */
  lemma InsertHead(x: real, s: seq<real>, tail: seq<real>)
    requires Sorted(s) && s != [] && s[0] < x && Sorted(tail)
    requires multiset(tail) == multiset(s[1..]) + multiset{x}
    ensures Sorted([s[0]] + tail)
  {
    forall k | 0 <= k < |tail| ensures s[0] <= tail[k] {
      assert tail[k] in multiset(tail);
      if tail[k] != x {
        assert tail[k] in multiset(s[1..]);
        var i :| 0 <= i < |s[1..]| && s[1..][i] == tail[k];
        assert s[0] <= s[i + 1];
      }
    }
  }

  /** The sorted copy that median and percentile work on. */
  function Sort(s: seq<real>): (r: seq<real>)
    ensures Sorted(r) && multiset(r) == multiset(s) && |r| == |s|
    decreases |s|
  {
    if s == [] then []
    else
      assert s == [s[0]] + s[1..];
      Insert(s[0], Sort(s[1..]))
  }

  /** Two sorted sequences with the same elements are equal. */
  lemma {:induction false} SortedUnique(a: seq<real>, b: seq<real>)
    requires Sorted(a) && Sorted(b) && multiset(a) == multiset(b)
    ensures a == b
    decreases |a|
  {
    assert |a| == |multiset(a)| == |multiset(b)| == |b|;
    if a != [] {
      SortedHeads(a, b);
      SortedTails(a, b);
      SortedUnique(a[1..], b[1..]);
      assert a == [a[0]] + a[1..] && b == [b[0]] + b[1..];
    }
  }

  /** Dropping equal heads leaves sorted tails with the same elements. */
  lemma SortedTails(a: seq<real>, b: seq<real>)
    requires Sorted(a) && Sorted(b) && multiset(a) == multiset(b)
    requires a != [] && b != [] && a[0] == b[0]
    ensures Sorted(a[1..]) && Sorted(b[1..]) && multiset(a[1..]) == multiset(b[1..])
  {
    DropHead(a);
    DropHead(b);
  }

  /** Dropping the head of a sorted sequence keeps it sorted and removes one copy of the head. */
  lemma DropHead(a: seq<real>)
    requires Sorted(a) && a != []
    ensures Sorted(a[1..]) && multiset(a[1..]) == multiset(a) - multiset{a[0]}
  {
    assert a == [a[0]] + a[1..];
  }

  /** Sorted sequences with the same elements start with the same element. */
  lemma SortedHeads(a: seq<real>, b: seq<real>)
    requires Sorted(a) && Sorted(b) && multiset(a) == multiset(b) && a != []
    ensures b != [] && a[0] == b[0]
  {
    assert a[0] in multiset(b);
    var j :| 0 <= j < |b| && b[j] == a[0];
    assert b[0] in multiset(a);
    var i :| 0 <= i < |a| && a[i] == b[0];
    assert a[0] <= a[i] && b[0] <= b[j];
  }

  /** Sorting a copy gives the same sequence for any reordering of the input. */
  lemma SortPermutation(a: seq<real>, b: seq<real>)
    requires multiset(a) == multiset(b)
    ensures Sort(a) == Sort(b)
  {
    SortedUnique(Sort(a), Sort(b));
  }

  // ---------------------------------------------------------------- min, max, range

  /** Statistics::min: the zero value when empty, otherwise a smallest sample. */
  function Min(s: seq<real>): (r: real)
    ensures s == [] ==> r == 0.0
    ensures s != [] ==> r in s && forall i :: 0 <= i < |s| ==> r <= s[i]
    decreases |s|
  {
    if s == [] then 0.0
    else if |s| == 1 then s[0]
    else
      var m := Min(s[1..]);
      if s[0] <= m then s[0] else m
  }

  /** Statistics::max: the zero value when empty, otherwise a largest sample. */
  function Max(s: seq<real>): (r: real)
    ensures s == [] ==> r == 0.0
    ensures s != [] ==> r in s && forall i :: 0 <= i < |s| ==> s[i] <= r
    decreases |s|
  {
    if s == [] then 0.0
    else if |s| == 1 then s[0]
    else
      var m := Max(s[1..]);
      if s[0] >= m then s[0] else m
  }

  /** Statistics::range: no two samples are further apart than the range. */
  function Range(s: seq<real>): (r: real)
    ensures r >= 0.0
    ensures forall i, j :: 0 <= i < |s| && 0 <= j < |s| ==> s[i] - s[j] <= r
  {
    if s == [] then 0.0 else Max(s) - Min(s)
  }

  /** The first element of a sorted permutation of s is Min(s), the last Max(s). */
  lemma SortedEndsOf(t: seq<real>, s: seq<real>)
    requires Sorted(t) && multiset(t) == multiset(s) && s != []
    ensures |t| == |s| && t[0] == Min(s) && t[|s| - 1] == Max(s)
  {
    assert |t| == |multiset(t)| == |multiset(s)| == |s|;
    SortedFirst(t, s);
    SortedLast(t, s);
  }

  lemma SortedFirst(t: seq<real>, s: seq<real>)
    requires Sorted(t) && multiset(t) == multiset(s) && t != [] && s != []
    ensures t[0] == Min(s)
  {
    var lo := Min(s);
    assert t[0] in multiset(s);
    var a :| 0 <= a < |s| && s[a] == t[0];
    assert lo <= s[a];
    assert lo in multiset(t);
    var i :| 0 <= i < |t| && t[i] == lo;
    assert i == 0 || t[0] <= t[i];
  }

  lemma SortedLast(t: seq<real>, s: seq<real>)
    requires Sorted(t) && multiset(t) == multiset(s) && |t| == |s| && s != []
    ensures t[|s| - 1] == Max(s)
  {
    var hi, last := Max(s), |s| - 1;
    assert t[last] in multiset(s);
    var b :| 0 <= b < |s| && s[b] == t[last];
    assert s[b] <= hi;
    assert hi in multiset(t);
    var j :| 0 <= j < |t| && t[j] == hi;
    assert j == last || t[j] <= t[last];
  }

  /** The sorted copy starts with the minimum and ends with the maximum. */
  lemma SortedEnds(s: seq<real>)
    requires s != []
    ensures |Sort(s)| == |s|
    ensures Sort(s)[0] == Min(s) && Sort(s)[|s| - 1] == Max(s)
  {
    var t := Sort(s);
    SortedEndsOf(t, s);
  }

  lemma MinMaxPermutation(a: seq<real>, b: seq<real>)
    requires multiset(a) == multiset(b)
    ensures Min(a) == Min(b) && Max(a) == Max(b) && Range(a) == Range(b)
  {
    assert |a| == |multiset(a)| == |multiset(b)| == |b|;
    if a != [] {
      PermutationBounds(a, b);
      PermutationBounds(b, a);
    }
  }

  /** The least and the greatest sample of a also occur in b, so they lie within b's. */
  lemma PermutationBounds(a: seq<real>, b: seq<real>)
    requires multiset(a) == multiset(b) && a != [] && b != []
    ensures Min(b) <= Min(a) && Max(a) <= Max(b)
  {
    var lo, hi := Min(a), Max(a);
    assert lo in multiset(b) && hi in multiset(b);
    var i :| 0 <= i < |b| && b[i] == lo;
    var j :| 0 <= j < |b| && b[j] == hi;
  }

  // ---------------------------------------------------------------- mean, variance, stddev

  /** p/q lies in [lo, hi] when q > 0 and q*lo <= p <= q*hi. */
  lemma DivisionBounds(total: real, n: real, lo: real, hi: real)
    requires n > 0.0 && n * lo <= total <= n * hi
    ensures lo <= total / n <= hi
  {
    assert total / n - lo == (total - n * lo) / n;
    assert hi - total / n == (n * hi - total) / n;
  }

  /**
   * Statistics::mean: 0 for no samples, otherwise sum / size, which lies
   * between the smallest and the largest sample.
   */
  function Mean(s: seq<real>): (r: real)
    ensures s == [] ==> r == 0.0
    ensures s != [] ==> Min(s) <= r <= Max(s)
  {
    if s == [] then 0.0
    else
      MeanBounds(s);
      Sum(s) / (|s| as real)
  }

  lemma MeanBounds(s: seq<real>)
    requires s != []
    ensures Min(s) <= Sum(s) / (|s| as real) <= Max(s)
  {
    AverageBounds(s, Min(s), Max(s));
  }

  /** Samples within [lo, hi] average to a value within [lo, hi]. */
  lemma AverageBounds(s: seq<real>, lo: real, hi: real)
    requires s != []
    requires forall i :: 0 <= i < |s| ==> lo <= s[i] <= hi
    ensures lo <= Sum(s) / (|s| as real) <= hi
  {
    var total, n := Sum(s), |s| as real;
    SumBounds(s, lo, hi);
    DivisionBounds(total, n, lo, hi);
  }

  /** Samples within [lo, hi] sum to between n*lo and n*hi. */
  lemma SumBounds(s: seq<real>, lo: real, hi: real)
    requires forall i :: 0 <= i < |s| ==> lo <= s[i] <= hi
    ensures (|s| as real) * lo <= Sum(s) <= (|s| as real) * hi
  {
    forall i | 0 <= i < |s| ensures lo <= Identity(s[i]) <= hi { }
    AccumulateBounds(s, Identity, lo, hi);
  }

  /** Summing two runs of samples one after the other adds their sums. */
  lemma SumAppend(a: seq<real>, b: seq<real>)
    ensures Sum(a + b) == Sum(a) + Sum(b)
  {
    AccumulateAppend(a, b, Identity);
  }

  /** The mean scaled back by the sample count is the sum: mean is sum / size. */
  lemma MeanTimesCount(s: seq<real>)
    requires s != []
    ensures Mean(s) * (|s| as real) == Sum(s)
  {
    var n := |s| as real;
    assert Mean(s) == Sum(s) / n;
  }

  lemma MeanPermutation(a: seq<real>, b: seq<real>)
    requires multiset(a) == multiset(b)
    ensures Mean(a) == Mean(b)
  {
    assert |a| == |multiset(a)| == |multiset(b)| == |b|;
    AccumulatePermutation(a, b, Identity);
  }

  /**
   * Statistics::variance: 0 below two samples, otherwise the population
   * variance, whose sum of squared deviations is divided by N (not N - 1).
   */
  function Variance(s: seq<real>): (r: real)
    ensures |s| < 2 ==> r == 0.0
    ensures r >= 0.0
  {
    if |s| < 2 then 0.0
    else
      SquaresNonNegative(s, Mean(s));
      Accumulate(s, SquaredDeviation(Mean(s))) / (|s| as real)
  }

  /** variance's loop: squared deviations from the mean, added left to right, then divided by N. */
  method ComputeVariance(values: seq<real>) returns (v: real)
    ensures v == Variance(values)
  {
    if |values| < 2 {
      return 0.0;
    }
    var avg := Mean(values);
    var total := 0.0;
    for i := 0 to |values|
      invariant total == Accumulate(values[..i], SquaredDeviation(avg))
    {
      var diff := values[i] - avg;
      total := total + Square(diff);
      SquaredDeviationStep(values, i, avg);
    }
    assert values[..|values|] == values;
    v := total / (|values| as real);
  }

  /** One more sample adds its squared deviation to the running total. */
  lemma SquaredDeviationStep(values: seq<real>, i: int, m: real)
    requires 0 <= i < |values|
    ensures Accumulate(values[..i + 1], SquaredDeviation(m))
         == Accumulate(values[..i], SquaredDeviation(m)) + Square(values[i] - m)
  {
    var f := SquaredDeviation(m);
    AccumulateAppend(values[..i], [values[i]], f);
    assert values[..i + 1] == values[..i] + [values[i]];
    assert Accumulate([values[i]], f) == f(values[i]) + Accumulate([], f);
  }

  lemma VariancePermutation(a: seq<real>, b: seq<real>)
    requires multiset(a) == multiset(b)
    ensures Variance(a) == Variance(b)
  {
    assert |a| == |multiset(a)| == |multiset(b)| == |b|;
    MeanPermutation(a, b);
    AccumulatePermutation(a, b, SquaredDeviation(Mean(a)));
  }

  /** The population variance of [1, 3] is 1, where the sample variance would be 2. */
  lemma VarianceDividesByCount()
    ensures Variance([1.0, 3.0]) == 1.0
  {
    var s := [1.0, 3.0];
    assert Sum(s) == 4.0;
    assert Mean(s) == 2.0;
    assert Accumulate(s, SquaredDeviation(2.0)) == 2.0;
  }

  /** Samples that all agree have that value as mean and no spread at all. */
  lemma ConstantSamples(s: seq<real>, c: real)
    requires s != []
    requires forall i :: 0 <= i < |s| ==> s[i] == c
    ensures Mean(s) == c && Variance(s) == 0.0 && Range(s) == 0.0
  {
    assert Min(s) == c && Max(s) == c;
    forall i | 0 <= i < |s| ensures 0.0 <= SquaredDeviation(c)(s[i]) <= 0.0 {
      assert SquaredDeviation(c)(s[i]) == Square(s[i] - c) == Square(0.0);
    }
    AccumulateBounds(s, SquaredDeviation(c), 0.0, 0.0);
  }

  /** sqrt is a square-root function on the non-negative reals. */
  ghost predicate IsSquareRoot(sqrt: real -> real)
  {
    forall v :: v >= 0.0 ==> sqrt(v) >= 0.0 && sqrt(v) * sqrt(v) == v
  }

  /**
   * Statistics::stddev, with std::sqrt passed in: 0 below two samples,
   * otherwise the square root of the population variance.
   */
  function StdDev(s: seq<real>, sqrt: real -> real): (r: real)
    ensures |s| < 2 ==> r == 0.0
    ensures IsSquareRoot(sqrt) ==> r >= 0.0 && r * r == Variance(s)
  {
    if |s| < 2 then 0.0 else sqrt(Variance(s))
  }

  lemma StdDevPermutation(a: seq<real>, b: seq<real>, sqrt: real -> real)
    requires multiset(a) == multiset(b)
    ensures StdDev(a, sqrt) == StdDev(b, sqrt)
  {
    assert |a| == |multiset(a)| == |multiset(b)| == |b|;
    VariancePermutation(a, b);
  }

  // ---------------------------------------------------------------- median, percentile

  /**
   * Statistics::median: 0 for no samples; otherwise, on the sorted copy, the
   * middle element for an odd count and the average of the two middle ones
   * for an even count.
   */
  function Median(s: seq<real>): (r: real)
    ensures s == [] ==> r == 0.0
  {
    if s == [] then 0.0 else Middle(Sort(s))
  }

  /** The middle of a non-empty sorted sequence, as median picks it. */
  function Middle(t: seq<real>): real
    requires t != []
  {
    var mid := |t| / 2;
    if |t| % 2 == 0 then (t[mid - 1] + t[mid]) * 0.5 else t[mid]
  }

  lemma MedianPermutation(a: seq<real>, b: seq<real>)
    requires multiset(a) == multiset(b)
    ensures Median(a) == Median(b)
  {
    assert |a| == |multiset(a)| == |multiset(b)| == |b|;
    SortPermutation(a, b);
  }

  lemma MedianWithinRange(s: seq<real>)
    requires s != []
    ensures Min(s) <= Median(s) <= Max(s)
  {
    var t := Sort(s);
    assert Median(s) == Middle(t);
    assert |t| == |s| && t[0] == Min(s) && t[|s| - 1] == Max(s) by {
      SortedEndsOf(t, s);
    }
    MiddleBetweenEnds(t, |s|, Min(s), Max(s));
  }

  /** The middle of a sorted sequence of length n whose ends are lo and hi lies in [lo, hi]. */
  lemma MiddleBetweenEnds(t: seq<real>, n: nat, lo: real, hi: real)
    requires Sorted(t) && |t| == n && n >= 1
    requires t[0] == lo && t[n - 1] == hi
    ensures lo <= Middle(t) <= hi
  {
    var mid := n / 2;
    assert lo <= t[mid] <= hi;
    if n % 2 == 0 {
      assert lo <= t[mid - 1] <= hi;
    }
  }

  /** With an odd number of samples the median is one of the samples. */
  lemma MedianOfOddCountIsSample(s: seq<real>)
    requires |s| % 2 == 1
    ensures Median(s) in s
  {
    var t := Sort(s);
    assert |t| == |multiset(t)| == |s|;
    assert t[|t| / 2] in multiset(s);
  }

  function Clamp(p: real): real
  {
    if p < 0.0 then 0.0 else if p > 100.0 then 100.0 else p
  }

  /** The fractional rank p/100*(n-1) of percentile p, after clamping p to [0, 100]. */
  function Rank(p: real, n: nat): (index: real)
    requires n >= 1
    ensures 0.0 <= index <= (n - 1) as real
  {
    var q := Clamp(p) / 100.0;
    var m := (n - 1) as real;
    assert (1.0 - q) * m >= 0.0;
    assert q * m >= 0.0;
    q * m
  }

  /**
   * Linear interpolation on t at a fractional index: the element itself when
   * the index is whole, otherwise the floor and ceiling neighbours weighted by
   * the fractional part.
   */
  function Interpolate(t: seq<real>, index: real): real
    requires 0.0 <= index <= (|t| - 1) as real
  {
    var lower := index.Floor;
    var upper := if lower as real == index then lower else lower + 1;
    if lower == upper then t[lower]
    else
      var weight := index - lower as real;
      t[lower] * (1.0 - weight) + t[upper] * weight
  }

  /** A weighted average v of a <= b with weight 0 <= w <= 1 stays in [a, b]. */
  lemma Interpolation(a: real, b: real, w: real, v: real)
    requires a <= b && 0.0 <= w <= 1.0 && v == a * (1.0 - w) + b * w
    ensures a <= v <= b
  {
    var d := b - a;
    ProductNonNegative(d, w);
    ProductNonNegative(d, 1.0 - w);
    assert a * (1.0 - w) + b * w == a + d * w == b - d * (1.0 - w);
  }

  lemma ProductNonNegative(x: real, y: real)
    requires x >= 0.0 && y >= 0.0
    ensures x * y >= 0.0
  {
  }

  /** On a sorted sequence the interpolated value lies between the first and last element. */
  lemma InterpolateWithinEnds(t: seq<real>, index: real)
    requires Sorted(t) && 0.0 <= index <= (|t| - 1) as real
    ensures t[0] <= Interpolate(t, index) <= t[|t| - 1]
  {
    var lower := index.Floor;
    var v := Interpolate(t, index);
    assert lower as real <= index < lower as real + 1.0;
    if lower as real == index {
      assert 0 <= lower < |t|;
      assert v == t[lower];
      assert t[0] <= t[lower] <= t[|t| - 1];
    } else {
      assert 0 <= lower < lower + 1 < |t|;
      var weight := index - lower as real;
      assert v == t[lower] * (1.0 - weight) + t[lower + 1] * weight;
      Interpolation(t[lower], t[lower + 1], weight, v);
      assert t[0] <= t[lower] && t[lower + 1] <= t[|t| - 1];
    }
  }

  /**
   * Statistics::percentile: p is clamped to [0, 100]; on the sorted copy the
   * fractional rank p/100*(n-1) picks one element when it is whole and
   * interpolates linearly between the floor and ceiling ranks otherwise.
   */
  function Percentile(s: seq<real>, p: real): (r: real)
    ensures s == [] ==> r == 0.0
  {
    if s == [] then 0.0 else Interpolate(Sort(s), Rank(p, |s|))
  }

  /** For any p and non-empty input, the percentile lies between min and max. */
  lemma PercentileWithinRange(s: seq<real>, p: real)
    requires s != []
    ensures Min(s) <= Percentile(s, p) <= Max(s)
  {
    var t, n, index := Sort(s), |s|, Rank(p, |s|);
    var lo, hi := t[0], t[n - 1];
    BetweenEnds(t, n, index, lo, hi);
    assert lo == Min(s) && hi == Max(s) by {
      SortedEndsOf(t, s);
    }
    assert Percentile(s, p) == Interpolate(t, index);
  }

  /** Interpolating a sorted sequence of length n whose ends are lo and hi gives a value in [lo, hi]. */
  lemma BetweenEnds(t: seq<real>, n: nat, index: real, lo: real, hi: real)
    requires Sorted(t) && |t| == n && 0.0 <= index <= (n - 1) as real
    requires t[0] == lo && t[n - 1] == hi
    ensures lo <= Interpolate(t, index) <= hi
  {
    InterpolateWithinEnds(t, index);
  }

  /** Rank at the clamping points and at the 50th percentile. */
  lemma RankAt(p: real, n: nat)
    requires n >= 1
    ensures p <= 0.0 ==> Rank(p, n) == 0.0
    ensures p >= 100.0 ==> Rank(p, n) == (n - 1) as real
    ensures p == 50.0 ==> Rank(p, n) == ((n - 1) as real) / 2.0
  {
  }

  /** At a whole index Interpolate returns that element. */
  lemma InterpolateWhole(t: seq<real>, k: nat, index: real)
    requires k < |t| && index == k as real
    ensures Interpolate(t, index) == t[k]
  {
    assert index.Floor == k;
  }

  /** Half-way between two neighbours Interpolate returns their average. */
  lemma InterpolateHalf(t: seq<real>, k: nat)
    requires 1 <= k < |t|
    ensures Interpolate(t, (k - 1) as real + 0.5) == (t[k - 1] + t[k]) * 0.5
  {
    var index := (k - 1) as real + 0.5;
    assert (k - 1) as real <= index < k as real;
    assert index.Floor == k - 1;
    assert t[k - 1] * (1.0 - 0.5) + t[k] * 0.5 == (t[k - 1] + t[k]) * 0.5;
  }

  /** p at or below 0 gives the sorted minimum; p at or above 100 the sorted maximum. */
  lemma PercentileExtremes(s: seq<real>, p: real)
    requires s != []
    ensures p <= 0.0 ==> Percentile(s, p) == Min(s)
    ensures p >= 100.0 ==> Percentile(s, p) == Max(s)
  {
    var t, n := Sort(s), |s|;
    var index := Rank(p, n);
    assert Percentile(s, p) == Interpolate(t, index);
    assert |t| == n && t[0] == Min(s) && t[n - 1] == Max(s) by {
      SortedEndsOf(t, s);
    }
    if p <= 0.0 {
      assert index == 0.0 by {
        RankAt(p, n);
      }
      InterpolateWhole(t, 0, index);
    }
    if p >= 100.0 {
      assert index == (n - 1) as real by {
        RankAt(p, n);
      }
      InterpolateWhole(t, n - 1, index);
    }
  }

  lemma PercentilePermutation(a: seq<real>, b: seq<real>, p: real)
    requires multiset(a) == multiset(b)
    ensures Percentile(a, p) == Percentile(b, p)
  {
    assert |a| == |multiset(a)| == |multiset(b)| == |b|;
    SortPermutation(a, b);
  }

  /** The 50th percentile is exactly the median, for every input. */
  lemma PercentileFiftyIsMedian(s: seq<real>)
    ensures Percentile(s, 50.0) == Median(s)
  {
    if s == [] {
      assert Percentile(s, 50.0) == 0.0 == Median(s);
    } else {
      var t, n := Sort(s), |s|;
      var index := Rank(50.0, n);
      assert Percentile(s, 50.0) == Interpolate(t, index);
      assert Median(s) == Middle(t);
      assert index == ((n - 1) as real) / 2.0 by {
        RankAt(50.0, n);
      }
      MiddleInterpolated(t, n, index);
    }
  }

  /** Interpolating half-way along the ranks lands on the middle, for odd and even lengths. */
  lemma MiddleInterpolated(t: seq<real>, n: nat, index: real)
    requires |t| == n && n >= 1 && index == ((n - 1) as real) / 2.0
    ensures Interpolate(t, index) == Middle(t)
  {
    var k := n / 2;
    if n % 2 == 1 {
      assert index == k as real;
      InterpolateWhole(t, k, index);
    } else {
      assert index == (k - 1) as real + 0.5;
      InterpolateHalf(t, k);
    }
  }
}
