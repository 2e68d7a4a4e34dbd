// mem_profiler_t (src/core/profiler.hpp): minimum, maximum and the truncating
// running average of the samples. Both statistics of the source (virtual and
// resident size) follow the same rules; the model has one.
module MemProfiler {
  import opened Sums

  // std::numeric_limits<size_t>::max()
  const SIZE_MAX: nat := 0xFFFF_FFFF_FFFF_FFFF

  lemma QuotientNatural(x: nat, n: nat)
    requires n > 0
    ensures x / n >= 0
  {
  }

  // The average over n samples from that over the first n - 1, rounded down.
  function NextAverage(average: nat, n: nat, x: nat): nat
    requires n > 0
  {
    var carried: nat := average * (n - 1);
    QuotientNatural(carried + x, n);
    (carried + x) / n
  }

  function Average(samples: seq<nat>): nat {
    var n := |samples|;
    if n == 0 then 0 else NextAverage(Average(samples[..n - 1]), n, samples[n - 1])
  }

  ghost predicate IsMinimum(m: nat, samples: seq<nat>) {
    if samples == [] then m == SIZE_MAX
    else m in samples && forall x :: x in samples ==> m <= x
  }

  ghost predicate IsMaximum(m: nat, samples: seq<nat>) {
    if samples == [] then m == 0
    else m in samples && forall x :: x in samples ==> x <= m
  }

  lemma ExtremesStep(samples: seq<nat>, x: nat)
    requires x <= SIZE_MAX
    ensures forall m: nat :: IsMinimum(m, samples) ==> IsMinimum(Min(x, m), samples + [x])
    ensures forall m: nat :: IsMaximum(m, samples) ==> IsMaximum(Max(x, m), samples + [x])
  {
    assert x in samples + [x];
    assert forall y :: y in samples + [x] <==> y in samples || y == x;
  }

  lemma AverageAppend(samples: seq<nat>, x: nat)
    ensures Average(samples + [x]) == NextAverage(Average(samples), |samples| + 1, x)
  {
    assert (samples + [x])[..|samples|] == samples;
  }

  class MemProfiler {
    var min: nat
    var max: nat
    var avg: nat
    var requestsCount: nat
    // time_to_die_ is false: the sampling thread is running.
    var sampling: bool
    ghost var samples: seq<nat>

    ghost predicate Valid()
      reads this
    {
      && requestsCount == |samples|
      && avg == Average(samples)
      && IsMinimum(min, samples)
      && IsMaximum(max, samples)
      && forall x :: x in samples ==> x <= SIZE_MAX
    }

    constructor ()
      ensures Valid() && samples == [] && !sampling
      ensures min == 0xFFFF_FFFF_FFFF_FFFF && max == avg == requestsCount == 0
    {
      min, max, avg, requestsCount, sampling, samples := SIZE_MAX, 0, 0, 0, false, [];
    }

    // start: the statistics begin again, unless sampling is running already.
    method Start()
      requires Valid()
      modifies this
      ensures Valid() && sampling
      ensures samples == if old(sampling) then old(samples) else []
      ensures !old(sampling) ==> min == 0xFFFF_FFFF_FFFF_FFFF && max == avg == requestsCount == 0
      ensures old(sampling) ==>
                min == old(min) && max == old(max) && avg == old(avg) && requestsCount == old(requestsCount)
    {
      if sampling {
        return;
      }
      min, max, avg, requestsCount, sampling, samples := SIZE_MAX, 0, 0, 0, true, [];
    }

    // stop: the statistics stay as they are.
    method Stop()
      requires Valid()
      modifies this`sampling
      ensures Valid() && !sampling
    {
      if !sampling {
        return;
      }
      sampling := false;
    }

    // One turn of the sampling loop: count, then recalculate.
    method Sample(value: nat)
      requires Valid() && value <= SIZE_MAX
      modifies this
      ensures Valid() && samples == old(samples) + [value] && sampling == old(sampling)
    {
      ghost var before := samples;
      samples := samples + [value];
      AverageAppend(before, value);
      requestsCount := requestsCount + 1;
      min := Min(value, min);
      max := Max(value, max);
      avg := NextAverage(avg, requestsCount, value);
      ExtremesStep(before, value);
    }
  }

  // A step of truncating division loses less than the divisor.
  lemma Truncates(x: nat, n: nat)
    requires n > 0
    ensures x - (n - 1) <= n * (x / n) <= x
  {
    assert x == n * (x / n) + x % n;
  }

  lemma NextMultiple(n: nat, q: nat, m: nat)
    requires q < m
    ensures n * q + n <= n * m
  {
    var k: nat := m - q - 1;
    assert n * (q + 1 + k) == n * q + n + n * k;
    assert n * k >= 0;
  }

  lemma QuotientWithin(s: nat, n: nat, low: nat, high: nat)
    requires n > 0 && n * low <= s <= n * high
    ensures low <= s / n <= high
  {
    Truncates(s, n);
    if s / n < low { NextMultiple(n, s / n, low); }
    if high < s / n { NextMultiple(n, high, s / n); }
  }

  lemma Products(a: nat, k: nat, low: nat, high: nat)
    requires low <= a <= high
    ensures k * low <= a * k <= k * high
  {
  }

  lemma BetweenMeans(a: nat, x: nat, n: nat, low: nat, high: nat)
    requires n > 0 && low <= a <= high && low <= x <= high
    ensures low <= NextAverage(a, n, x) <= high
  {
    var k: nat := n - 1;
    Products(a, k, low, high);
    assert (k + 1) * low == k * low + low && (k + 1) * high == k * high + high;
    QuotientWithin(a * k + x, n, low, high);
  }

  // The average lies between the smallest and the largest sample.
  lemma {:induction false} AverageWithinRange(samples: seq<nat>, low: nat, high: nat)
    requires samples != [] && forall i :: 0 <= i < |samples| ==> low <= samples[i] <= high
    ensures low <= Average(samples) <= high
  {
    var n := |samples|;
    var before, last := samples[..n - 1], samples[n - 1];
    if n > 1 {
      AverageWithinRange(before, low, high);
      BetweenMeans(Average(before), last, n, low, high);
    } else {
      assert Average(samples) == NextAverage(0, 1, last) == last / 1;
    }
  }

  // What the profiler reports once it has sampled: min <= avg <= max.
  lemma ReportOrdered(p: MemProfiler)
    requires p.Valid() && p.samples != []
    ensures p.min <= p.avg <= p.max
  {
    forall i | 0 <= i < |p.samples| ensures p.min <= p.samples[i] <= p.max {
      assert p.samples[i] in p.samples;
    }
    AverageWithinRange(p.samples, p.min, p.max);
  }

  // 0 + 1 + .. + (n - 1)
  function Triangle(n: nat): nat {
    if n == 0 then 0 else Triangle(n - 1) + (n - 1)
  }

  lemma {:induction false} TriangleClosedForm(n: nat)
    ensures 2 * Triangle(n) == n * (n - 1)
  {
    if n > 0 {
      TriangleClosedForm(n - 1);
      assert n * (n - 1) == (n - 1) * (n - 2) + 2 * (n - 1);
    }
  }

  lemma BoundsStep(n: nat, carried: nat, x: nat, sum: nat, slack: nat)
    requires n > 0 && sum - slack <= carried <= sum
    ensures sum + x - (slack + n - 1) <= n * ((carried + x) / n) <= sum + x
  {
    Truncates(carried + x, n);
  }

  lemma Commute(a: nat, b: nat)
    ensures a * b == b * a
  {
  }

  // After n samples of any values: sum - n(n-1)/2 <= n * avg <= sum.
  lemma {:induction false} AverageBounds(samples: seq<nat>)
    ensures Sum(samples) - Triangle(|samples|) <= |samples| * Average(samples) <= Sum(samples)
  {
    if samples != [] {
      var n := |samples|;
      var before, last := samples[..n - 1], samples[n - 1];
      AverageBounds(before);
      assert samples == before + [last];
      SumAppend(before, [last]);
      AverageAppend(before, last);
      Commute(n - 1, Average(before));
      BoundsStep(n, Average(before) * (n - 1), last, Sum(before), Triangle(n - 1));
    }
  }

  predicate Whole(samples: seq<nat>)
    requires samples != []
  {
    Sum(samples) % |samples| == 0
  }

  ghost predicate WholeAverages(samples: seq<nat>) {
    forall k :: 0 < k <= |samples| ==> Whole(samples[..k])
  }

  lemma WholeAppend(samples: seq<nat>, x: nat)
    ensures WholeAverages(samples + [x]) <==> WholeAverages(samples) && Whole(samples + [x])
  {
    var all := samples + [x];
    assert forall k :: 0 < k <= |samples| ==> all[..k] == samples[..k];
    assert all[..|all|] == all;
    if WholeAverages(all) {
      assert Whole(all[..|all|]);
      forall k | 0 < k <= |samples| ensures Whole(samples[..k]) {
        assert Whole(all[..k]);
      }
    }
  }

  lemma ExactStep(n: nat, carried: nat, x: nat, sum: nat)
    requires n > 0 && carried <= sum
    ensures n * ((carried + x) / n) == sum + x <==> carried == sum && (sum + x) % n == 0
  {
    assert carried + x == n * ((carried + x) / n) + (carried + x) % n;
  }

  // Nothing is lost exactly when the average of every prefix is a whole number.
  lemma {:induction false} AverageExactIff(samples: seq<nat>)
    ensures |samples| * Average(samples) == Sum(samples) <==> WholeAverages(samples)
  {
    if samples != [] {
      var n := |samples|;
      var before, last := samples[..n - 1], samples[n - 1];
      AverageExactIff(before);
      AverageBounds(before);
      assert samples == before + [last];
      SumAppend(before, [last]);
      AverageAppend(before, last);
      Commute(n - 1, Average(before));
      ExactStep(n, Average(before) * (n - 1), last, Sum(before));
      WholeAppend(before, last);
    }
  }

  // The samples 0, 1, .., n - 1.
  function Ramp(n: nat): (samples: seq<nat>)
    ensures |samples| == n
  {
    if n == 0 then [] else Ramp(n - 1) + [n - 1]
  }

  lemma StaysZero(n: nat)
    requires n > 0
    ensures NextAverage(0, n, n - 1) == 0
  {
    Truncates(n - 1, n);
    if (n - 1) / n > 0 { NextMultiple(n, 0, (n - 1) / n); }
  }

  // The lower bound is reached: a steadily growing usage averages to zero.
  lemma {:induction false} RampAveragesToZero(n: nat)
    ensures Average(Ramp(n)) == 0
    ensures Sum(Ramp(n)) == Triangle(n)
  {
    if n > 0 {
      RampAveragesToZero(n - 1);
      AverageAppend(Ramp(n - 1), n - 1);
      SumAppend(Ramp(n - 1), [n - 1]);
      StaysZero(n);
    }
  }

  lemma RoundsDown(average: nat, m: nat, x: nat, carried: nat)
    requires carried == average * m
    ensures var next := NextAverage(average, m + 1, x); (m + 1) * next <= carried + x < (m + 1) * next + (m + 1)
  {
    Truncates(carried + x, m + 1);
  }

  // The average after another sample: the old one times the old number of samples,
  // plus the sample, divided and rounded down.
  lemma AverageRoundsDown(samples: seq<nat>, x: nat, carried: nat)
    requires carried == Average(samples) * |samples|
    ensures var n, next := |samples| + 1, Average(samples + [x]);
            n * next <= carried + x < n * next + n
  {
    AverageAppend(samples, x);
    RoundsDown(Average(samples), |samples|, x, carried);
  }
}
