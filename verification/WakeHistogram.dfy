/** The fixed-bucket wake-lateness histogram, against the exact order statistics of its samples. */
module WakeHistogram {
  import opened Uint

  const BUCKET_US: nat := 100
  const BUCKETS: nat := 64
  /** Where the overflow bucket starts. */
  const RANGE_US: nat := 6400

  /** How many samples are below `bound`. */
  function Below(samples: seq<nat>, bound: nat): (n: nat)
    ensures n <= |samples|
  {
    if samples == [] then 0
    else Below(samples[..|samples| - 1], bound) + (if samples[|samples| - 1] < bound then 1 else 0)
  }

  function MaxOf(samples: seq<nat>): nat {
    if samples == [] then 0 else Max(MaxOf(samples[..|samples| - 1]), samples[|samples| - 1])
  }

  function Ceil(x: real): int { -((-x).Floor) }

  /** `ceil(count * q)` clamped into `1..=count`. */
  function Target(count: nat, q: real): (t: nat)
    ensures count >= 1 ==> 1 <= t <= count
  {
    Max(1, Min(Ceil(count as real * q), count))
  }

  /** Upper edge of the first bucket from `index` on that brings the running count to `target`. */
  function EdgeFrom(samples: seq<nat>, target: nat, index: nat): nat
    requires index <= BUCKETS
    decreases BUCKETS - index
  {
    if index == BUCKETS then RANGE_US
    else if Below(samples, (index + 1) * BUCKET_US) >= target then (index + 1) * BUCKET_US
    else EdgeFrom(samples, target, index + 1)
  }

  function Quantile(samples: seq<nat>, target: nat): nat {
    if samples == [] then 0 else Min(EdgeFrom(samples, target, 0), MaxOf(samples))
  }

  // ----- what a quantile should be -----

  ghost predicate SortedPermutation(s: seq<nat>, samples: seq<nat>) {
    && (forall i, j :: 0 <= i <= j < |s| ==> s[i] <= s[j])
    && multiset(s) == multiset(samples)
  }

  /** `k` is the rank of the quantile `q` among `n` samples: `q * n` rounded up. */
  predicate IsRank(k: int, q: real, n: nat) { (k - 1) as real < q * n as real <= k as real }

  /** `r` reports a sample `v`: the upper edge of its bucket, or the end of the range past it, and never
      more than the largest sample. */
  predicate Reports(r: nat, v: nat, largest: nat) {
    && r == Min(if v < RANGE_US then v - v % BUCKET_US + BUCKET_US else RANGE_US, largest)
    && (v < RANGE_US ==> v <= r <= v + BUCKET_US)
    && (v >= RANGE_US ==> r == RANGE_US)
  }

  /** `r` reports the order statistic of rank `q * n`, rounded up, however the samples are sorted. */
  ghost predicate ReportsQuantile(r: nat, samples: seq<nat>, q: real) {
    forall s, k :: SortedPermutation(s, samples) && IsRank(k, q, |samples|) ==>
                     1 <= k <= |s| && s[k - 1] in samples && Reports(r, s[k - 1], MaxOf(samples))
  }

  class WakeLateHistogram {
    const buckets: array<nat>
    var overflow: nat
    var count: nat
    var maxSeen: nat
    ghost var samples: seq<nat>

    ghost predicate Valid()
      reads this, buckets
    {
      && buckets.Length == BUCKETS
      && (forall i :: 0 <= i < BUCKETS ==>
            buckets[i] == Below(samples, (i + 1) * BUCKET_US) - Below(samples, i * BUCKET_US))
      && overflow == |samples| - Below(samples, RANGE_US)
      && count == |samples| && maxSeen == MaxOf(samples)
    }

    constructor ()
      ensures Valid() && fresh(buckets) && samples == []
    {
      buckets := new nat[BUCKETS](_ => 0);
      overflow, count, maxSeen, samples := 0, 0, 0, [];
    }

    method Record(wakeLateUs: nat)
      requires Valid()
      modifies this, buckets
      ensures Valid() && samples == old(samples) + [wakeLateUs]
    {
      var bucket := wakeLateUs / BUCKET_US;
      if bucket < BUCKETS {
        buckets[bucket] := buckets[bucket] + 1;
      } else {
        overflow := overflow + 1;
      }
      count := count + 1;
      maxSeen := Max(maxSeen, wakeLateUs);
      samples := samples + [wakeLateUs];
      assert samples[..|samples| - 1] == old(samples);
    }

    method QuantileUs(q: real) returns (r: nat)
      requires Valid()
      ensures r == Quantile(samples, Target(|samples|, q))
      ensures samples == [] ==> r == 0
      ensures samples != [] && 0.0 < q <= 1.0 ==> ReportsQuantile(r, samples, q)
    {
      if samples != [] && 0.0 < q <= 1.0 { QuantileReportsItsRank(samples, q); }
      if count == 0 {
        return 0;
      }
      var target := Target(count, q);
      var seen, index := 0, 0;
      BelowZero(samples);
      while index < BUCKETS
        invariant 0 <= index <= BUCKETS
        invariant seen == Below(samples, index * BUCKET_US)
        invariant EdgeFrom(samples, target, 0) == EdgeFrom(samples, target, index)
      {
        seen := seen + buckets[index];
        if seen >= target {
          return Min((index + 1) * BUCKET_US, maxSeen);
        }
        index := index + 1;
      }
      return Min(BUCKETS * BUCKET_US, maxSeen);
    }
  }

  lemma {:induction false} BelowZero(samples: seq<nat>)
    ensures Below(samples, 0) == 0
  {
    if samples != [] {
      BelowZero(samples[..|samples| - 1]);
    }
  }

  // ----- order statistics -----

  lemma {:induction false} BelowMonotone(samples: seq<nat>, a: nat, b: nat)
    requires a <= b
    ensures Below(samples, a) <= Below(samples, b)
  {
    if samples != [] {
      BelowMonotone(samples[..|samples| - 1], a, b);
    }
  }

  lemma {:induction false} BelowWithout(s: seq<nat>, i: nat, b: nat)
    requires i < |s|
    ensures Below(s, b) == Below(s[..i] + s[i + 1..], b) + (if s[i] < b then 1 else 0)
    decreases |s|
  {
    var n := |s| - 1;
    if i < n {
      BelowWithout(s[..n], i, b);
      assert (s[..i] + s[i + 1..])[..n - 1] == s[..n][..i] + s[..n][i + 1..];
    } else {
      assert s[..i] + s[i + 1..] == s[..n];
    }
  }

  lemma RemoveTheLast(s: seq<nat>, t: seq<nat>) returns (i: nat)
    requires s != [] && multiset(s) == multiset(t)
    ensures i < |t| && t[i] == s[|s| - 1]
    ensures multiset(s[..|s| - 1]) == multiset(t[..i] + t[i + 1..])
  {
    var last := s[|s| - 1];
    assert last in multiset(s);
    i :| 0 <= i < |t| && t[i] == last;
    assert s == s[..|s| - 1] + [last];
    assert t == t[..i] + [last] + t[i + 1..];
    assert multiset(s) == multiset(s[..|s| - 1]) + multiset{last};
    assert multiset(t) == multiset(t[..i]) + multiset{last} + multiset(t[i + 1..]);
    assert multiset(t[..i] + t[i + 1..]) == multiset(t) - multiset{last};
    assert multiset(s[..|s| - 1]) == multiset(s) - multiset{last};
  }

  lemma {:induction false} BelowOfAPermutation(s: seq<nat>, t: seq<nat>, b: nat)
    requires multiset(s) == multiset(t)
    ensures Below(s, b) == Below(t, b) && |s| == |t|
    decreases |s|
  {
    assert |multiset(s)| == |s| && |multiset(t)| == |t|;
    if s != [] {
      var i := RemoveTheLast(s, t);
      BelowOfAPermutation(s[..|s| - 1], t[..i] + t[i + 1..], b);
      BelowWithout(t, i, b);
    }
  }

  /** In sorted order the samples below a bound are a prefix. */
  lemma {:induction false} BelowOfSorted(s: seq<nat>, k: nat, b: nat)
    requires (forall i, j :: 0 <= i <= j < |s| ==> s[i] <= s[j]) && k < |s|
    ensures s[k] < b ==> k < Below(s, b)
    ensures s[k] >= b ==> Below(s, b) <= k
  {
    var n := |s| - 1;
    if k < n {
      BelowOfSorted(s[..n], k, b);
    } else if n > 0 {
      BelowOfSorted(s[..n], n - 1, b);
    }
  }

  /** The edge is the upper edge of the bucket of any value `v` that the target reaches within. */
  lemma {:induction false} EdgeOfValue(samples: seq<nat>, target: nat, v: nat, index: nat)
    requires Below(samples, v) < target <= Below(samples, v + 1)
    requires index <= BUCKETS && index * BUCKET_US <= v
    ensures EdgeFrom(samples, target, index) == if v < RANGE_US then (v / BUCKET_US + 1) * BUCKET_US else RANGE_US
    decreases BUCKETS - index
  {
    if index < BUCKETS {
      if v < (index + 1) * BUCKET_US {
        BelowMonotone(samples, v + 1, (index + 1) * BUCKET_US);
      } else {
        BelowMonotone(samples, (index + 1) * BUCKET_US, v);
        EdgeOfValue(samples, target, v, index + 1);
      }
    }
  }

  lemma {:induction false} MaxIsASample(samples: seq<nat>)
    requires samples != []
    ensures MaxOf(samples) in samples && forall x <- samples :: x <= MaxOf(samples)
  {
    var n := |samples| - 1;
    if n > 0 {
      MaxIsASample(samples[..n]);
    }
    assert samples == samples[..n] + [samples[n]];
  }

  lemma RankOfOrderStatistic(samples: seq<nat>, s: seq<nat>, target: nat)
    requires SortedPermutation(s, samples) && 1 <= target <= |samples|
    ensures |s| == |samples| && s[target - 1] in samples
    ensures Below(samples, s[target - 1]) < target <= Below(samples, s[target - 1] + 1)
  {
    BelowOfAPermutation(s, samples, 0);
    var v := s[target - 1];
    BelowOfAPermutation(s, samples, v);
    BelowOfAPermutation(s, samples, v + 1);
    BelowOfSorted(s, target - 1, v);
    BelowOfSorted(s, target - 1, v + 1);
    assert v in multiset(s);
  }

  /** With `v` the target-th smallest sample, the walk reports `v`: within one bucket above it inside the
      range, exactly the range's end past it, never above the maximum. */
  lemma QuantileBracketsTheOrderStatistic(samples: seq<nat>, s: seq<nat>, target: nat)
    requires SortedPermutation(s, samples) && 1 <= target <= |samples| == |s|
    ensures Reports(Quantile(samples, target), s[target - 1], MaxOf(samples)) && s[target - 1] in samples
  {
    RankOfOrderStatistic(samples, s, target);
    EdgeOfValue(samples, target, s[target - 1], 0);
    MaxIsASample(samples);
  }

  /** The rank is a whole number of samples, and the one the walk looks for. */
  lemma TargetIsTheRank(n: nat, q: real, k: int)
    requires n >= 1 && 0.0 < q <= 1.0 && IsRank(k, q, n)
    ensures 1 <= k <= n && Target(n, q) == k
  {
    var x := n as real * q;
    assert 0.0 < x <= n as real;
    assert (-x).Floor == -k;
  }

  /** For every q in (0, 1], however the samples are sorted, what is reported is the sample of rank
      `ceil(q * n)` to within its bucket. */
  lemma QuantileReportsItsRank(samples: seq<nat>, q: real)
    requires samples != [] && 0.0 < q <= 1.0
    ensures ReportsQuantile(Quantile(samples, Target(|samples|, q)), samples, q)
  {
    hide Quantile, Target, Reports, MaxOf;
    forall s, k | SortedPermutation(s, samples) && IsRank(k, q, |samples|)
      ensures 1 <= k <= |s| && s[k - 1] in samples && Reports(Quantile(samples, Target(|samples|, q)), s[k - 1], MaxOf(samples))
    {
      TargetIsTheRank(|samples|, q, k);
      BelowOfAPermutation(s, samples, 0);
      QuantileBracketsTheOrderStatistic(samples, s, k);
    }
  }

  lemma {:induction false} EdgeMonotone(samples: seq<nat>, t: nat, u: nat, index: nat)
    requires t <= u && index <= BUCKETS
    ensures EdgeFrom(samples, t, index) <= EdgeFrom(samples, u, index)
    ensures EdgeFrom(samples, u, index) >= index * BUCKET_US
    decreases BUCKETS - index
  {
    if index < BUCKETS {
      EdgeMonotone(samples, t, u, index + 1);
    }
  }

  /** A larger quantile is never reported smaller. */
  lemma QuantileIsMonotone(samples: seq<nat>, q: real, q': real)
    requires q <= q'
    ensures Quantile(samples, Target(|samples|, q)) <= Quantile(samples, Target(|samples|, q'))
  {
    assert |samples| as real * q <= |samples| as real * q';
    EdgeMonotone(samples, Target(|samples|, q), Target(|samples|, q'), 0);
  }

  lemma {:induction false} AllBelow(samples: seq<nat>, b: nat)
    requires forall i :: 0 <= i < |samples| ==> samples[i] < b
    ensures Below(samples, b) == |samples|
  {
    if samples != [] {
      AllBelow(samples[..|samples| - 1], b);
    }
  }

  lemma {:induction false} SomeNotBelow(samples: seq<nat>, i: nat, b: nat)
    requires i < |samples| && samples[i] >= b
    ensures Below(samples, b) < |samples|
  {
    if i < |samples| - 1 {
      SomeNotBelow(samples[..|samples| - 1], i, b);
    }
  }

  lemma RankOfMaximum(samples: seq<nat>)
    requires samples != []
    ensures Below(samples, MaxOf(samples)) < |samples| == Below(samples, MaxOf(samples) + 1)
  {
    var m := MaxOf(samples);
    MaxIsASample(samples);
    forall k | 0 <= k < |samples| ensures samples[k] < m + 1 {
      assert samples[k] in samples;
    }
    AllBelow(samples, m + 1);
    var i :| 0 <= i < |samples| && samples[i] == m;
    SomeNotBelow(samples, i, m);
  }

  /** At `q = 1` the maximum is reported exactly while it is in range, and the range's end past it. */
  lemma TopQuantileIsTheMaximum(samples: seq<nat>)
    requires samples != []
    ensures Quantile(samples, Target(|samples|, 1.0)) == Min(MaxOf(samples), RANGE_US)
  {
    hide Below, MaxOf;
    assert Target(|samples|, 1.0) == |samples|;
    RankOfMaximum(samples);
    EdgeOfValue(samples, |samples|, MaxOf(samples), 0);
  }
}
