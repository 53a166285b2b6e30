/** The load test's latency histogram (`benches/ledger_write.rs`): counts per bucket, and percentiles read off them. */
module LatencyHist {
  import opened Prelude

  const HIST_BUCKETS := 4601
  const HIST_OVERFLOW := 4600
  const U32_MAX: int := 0xFFFF_FFFF
  const TEN_SECONDS := 10_000_000

  /** The bucket of a whole number of microseconds: one wide below 1 ms, then a hundredth. */
  function BucketIndex(us: nat): (i: nat)
    ensures i < HIST_BUCKETS
  {
    if us < 1_000 then us
    else if us < 10_000 then 1_000 + (us - 1_000) / 10
    else if us < 100_000 then 1_900 + (us - 10_000) / 100
    else if us < 1_000_000 then 2_800 + (us - 100_000) / 1_000
    else if us < TEN_SECONDS then 3_700 + (us - 1_000_000) / 10_000
    else HIST_OVERFLOW
  }

  function BucketUpperUs(i: nat): nat {
    if i < 1_000 then i + 1
    else if i < 1_900 then 1_000 + (i - 1_000) * 10 + 10
    else if i < 2_800 then 10_000 + (i - 1_900) * 100 + 100
    else if i < 3_700 then 100_000 + (i - 2_800) * 1_000 + 1_000
    else if i < HIST_OVERFLOW then 1_000_000 + (i - 3_700) * 10_000 + 10_000
    else TEN_SECONDS
  }

  /**
   * A sample's bucket ends above it, by at most a hundredth of it or one microsecond; from ten
   * seconds on, it does not.
   */
  lemma UpperIsAboveExactlyWhen(us: nat)
    ensures us < BucketUpperUs(BucketIndex(us)) <==> us < TEN_SECONDS
    ensures us < TEN_SECONDS ==> BucketUpperUs(BucketIndex(us)) <= us + Max(1, us / 100)
  {
  }

  /** Where a bucket ends the next one begins: its samples are those below its end and no lower bucket's. */
  lemma BucketEndsWhereTheNextBegins(i: nat)
    requires i < HIST_OVERFLOW
    ensures 0 < BucketUpperUs(i) <= TEN_SECONDS
    ensures BucketIndex(BucketUpperUs(i) - 1) == i && BucketIndex(BucketUpperUs(i)) == i + 1
  {
  }

  lemma IndexMonotone(a: nat, b: nat)
    requires a <= b
    ensures BucketIndex(a) <= BucketIndex(b)
  {
  }

  // ---------------------------------------------------------------------
  // Counting samples
  // ---------------------------------------------------------------------

  /** A sample's whole microseconds, in 32 bits. */
  function Micros(ns: nat): nat {
    Min(ns / 1_000, U32_MAX)
  }

  /** Rounded down, up to a little over an hour and eleven minutes; what takes longer counts as that. */
  lemma MicrosExactly(ns: nat)
    ensures Micros(ns) * 1_000 <= ns
    ensures ns < Micros(ns) * 1_000 + 1_000 <==> ns < 0x1_0000_0000 * 1_000
    ensures ns >= 0x1_0000_0000 * 1_000 ==> Micros(ns) == U32_MAX
  {
  }

  function CountIn(samples: seq<nat>, i: nat): (n: nat)
    ensures n <= |samples|
  {
    if samples == [] then 0
    else CountIn(samples[..|samples| - 1], i) + if BucketIndex(Micros(samples[|samples| - 1])) == i then 1 else 0
  }

  /** Samples in the buckets below `i`. */
  function CountBelowBucket(samples: seq<nat>, i: nat): nat {
    if samples == [] then 0
    else CountBelowBucket(samples[..|samples| - 1], i)
         + if BucketIndex(Micros(samples[|samples| - 1])) < i then 1 else 0
  }

  function CountAtMost(samples: seq<nat>, us: int): (n: nat)
    ensures n <= |samples|
  {
    if samples == [] then 0
    else CountAtMost(samples[..|samples| - 1], us) + if Micros(samples[|samples| - 1]) <= us then 1 else 0
  }

  lemma {:induction false} NextBucket(samples: seq<nat>, i: nat)
    ensures CountBelowBucket(samples, i + 1) == CountBelowBucket(samples, i) + CountIn(samples, i)
  {
    if samples != [] {
      NextBucket(samples[..|samples| - 1], i);
    }
  }

  lemma {:induction false} NoBucketBelowZero(samples: seq<nat>)
    ensures CountBelowBucket(samples, 0) == 0
  {
    if samples != [] {
      NoBucketBelowZero(samples[..|samples| - 1]);
    }
  }

  /** Ranks of a sample's value lie inside the ranks of its bucket. */
  lemma {:induction false} BucketHoldsItsRanks(samples: seq<nat>, us: nat)
    ensures CountBelowBucket(samples, BucketIndex(us)) <= CountAtMost(samples, us - 1)
    ensures CountAtMost(samples, us) <= CountBelowBucket(samples, BucketIndex(us) + 1)
  {
    if samples != [] {
      var last := Micros(samples[|samples| - 1]);
      BucketHoldsItsRanks(samples[..|samples| - 1], us);
      if last <= us {
        IndexMonotone(last, us);
      } else {
        IndexMonotone(us, last);
      }
    }
  }

  lemma {:induction false} CountInConcat(a: seq<nat>, b: seq<nat>, i: nat)
    ensures CountIn(a + b, i) == CountIn(a, i) + CountIn(b, i)
  {
    if b == [] {
      assert a + b == a;
    } else {
      CountInConcat(a, b[..|b| - 1], i);
      assert (a + b)[..|a + b| - 1] == a + b[..|b| - 1];
    }
  }

  /** The `k`-th smallest of the samples, counting from one. */
  ghost predicate IsKthSmallest(samples: seq<nat>, k: nat, us: nat) {
    CountAtMost(samples, us - 1) < k <= CountAtMost(samples, us)
  }

  lemma {:induction false} CountAtMostGrows(samples: seq<nat>, a: int, b: int)
    requires a <= b
    ensures CountAtMost(samples, a) <= CountAtMost(samples, b)
  {
    if samples != [] {
      CountAtMostGrows(samples[..|samples| - 1], a, b);
    }
  }

  /** There is one for every rank, and no other. */
  lemma KthSmallestIsOne(samples: seq<nat>, k: nat, a: nat, b: nat)
    requires IsKthSmallest(samples, k, a) && IsKthSmallest(samples, k, b)
    ensures a == b
  {
    if a < b {
      CountAtMostGrows(samples, a, b - 1);
    } else if b < a {
      CountAtMostGrows(samples, b, a - 1);
    }
  }

  lemma {:induction false} AllAtMostMax(samples: seq<nat>)
    ensures CountAtMost(samples, U32_MAX) == |samples|
    ensures CountAtMost(samples, -1) == 0
  {
    if samples != [] {
      AllAtMostMax(samples[..|samples| - 1]);
    }
  }

  lemma KthSmallestExists(samples: seq<nat>, k: nat) returns (us: nat)
    requires 1 <= k <= |samples|
    ensures IsKthSmallest(samples, k, us)
  {
    AllAtMostMax(samples);
    us := 0;
    while CountAtMost(samples, us) < k
      invariant CountAtMost(samples, us - 1) < k && us <= U32_MAX
      decreases U32_MAX - us
    {
      us := us + 1;
    }
  }

  // ---------------------------------------------------------------------
  // The histogram
  // ---------------------------------------------------------------------

  /** What a `u32` counter shows after this many increments. */
  function Saturated(n: nat): nat {
    Min(n, U32_MAX)
  }

  lemma {:induction false} SumConcat(a: seq<int>, b: seq<int>)
    ensures Sum(a + b) == Sum(a) + Sum(b)
  {
    if b == [] {
      assert a + b == a;
    } else {
      SumConcat(a, b[..|b| - 1]);
      assert (a + b)[..|a + b| - 1] == a + b[..|b| - 1];
    }
  }

  lemma SaturatedAdds(a: nat, b: nat)
    ensures Min(Saturated(a) + Saturated(b), U32_MAX) == Saturated(a + b)
  {
  }


  /** The counters of a histogram that has recorded these samples, in whatever order. */
  ghost predicate Counts(buckets: seq<nat>, samples: seq<nat>) {
    |buckets| == HIST_BUCKETS && forall i :: 0 <= i < HIST_BUCKETS ==> buckets[i] == Saturated(CountIn(samples, i))
  }

  /** Counters that add up, saturated, count both streams. */
  lemma CountsOfBoth(buckets: seq<nat>, a: seq<nat>, b: seq<nat>)
    requires |buckets| == HIST_BUCKETS
    requires forall i :: 0 <= i < HIST_BUCKETS ==> buckets[i] == Saturated(CountIn(a, i) + CountIn(b, i))
    ensures Counts(buckets, a + b) && Sum(a + b) == Sum(a) + Sum(b)
  {
    forall i | 0 <= i < HIST_BUCKETS ensures CountIn(a + b, i) == CountIn(a, i) + CountIn(b, i) {
      CountInConcat(a, b, i);
    }
    SumConcat(a, b);
  }

  /** `(p * count).ceil().max(1)`, over the reals. */
  function RankOf(p: real, count: nat): (k: nat)
    ensures k >= 1
  {
    Max(Ceil(p * count as real), 1)
  }

  function Ceil(x: real): int {
    -(-x).Floor
  }

  /** The rank of a fraction is the least that covers it, and at most the count while the fraction is at most one. */
  lemma RankIsLeastCover(p: real, count: nat, k: nat)
    requires 1 <= k
    ensures RankOf(p, count) <= k <==> p * count as real <= k as real
    ensures count >= 1 && p <= 1.0 ==> RankOf(p, count) <= count
  {
    var x := p * count as real;
    LeastCover(x, k);
    if count >= 1 && p <= 1.0 {
      ScalingDown(p, count as real, x);
      LeastCover(x, count);
    }
  }

  lemma LeastCover(x: real, k: nat)
    requires 1 <= k
    ensures Max(Ceil(x), 1) <= k <==> x <= k as real
  {
    CeilIsLeastCover(x, k);
  }

  lemma CeilIsLeastCover(x: real, k: int)
    ensures Ceil(x) <= k <==> x <= k as real
  {
  }

  lemma ScalingDown(p: real, y: real, x: real)
    requires p <= 1.0 && y >= 0.0 && x == p * y
    ensures x <= y
  {
    assert (1.0 - p) * y >= 0.0;
  }

  class LatencyHist {
    const buckets: array<nat>
    var count: nat
    var sumNs: nat
    ghost var samples: seq<nat>

    /** The whole state is what the samples make it. */
    ghost predicate Valid()
      reads this, buckets
    {
      Counts(buckets[..], samples) && count == |samples| && sumNs == Sum(samples)
    }

    constructor ()
      ensures Valid() && fresh(buckets) && samples == []
    {
      buckets := new nat[HIST_BUCKETS](_ => 0);
      count, sumNs, samples := 0, 0, [];
    }

    method Record(ns: nat)
      requires Valid()
      modifies this, buckets
      ensures Valid() && samples == old(samples) + [ns]
    {
      var i := BucketIndex(Micros(ns));
      if buckets[i] < U32_MAX {
        buckets[i] := buckets[i] + 1;
      }
      count := count + 1;
      sumNs := sumNs + ns;
      samples := samples + [ns];
      assert samples[..|samples| - 1] == old(samples);
    }

    /** The same as recording the other's samples here. */
    /** The loop over both histograms' counters. */
    method AddCounters(others: array<nat>, ghost theirs: seq<nat>)
      requires Counts(buckets[..], samples) && Counts(others[..], theirs) && others != buckets
      modifies buckets
      ensures forall k :: 0 <= k < HIST_BUCKETS ==>
        buckets[..][k] == Saturated(CountIn(samples, k) + CountIn(theirs, k))
    {
      for i := 0 to buckets.Length
        invariant forall k :: 0 <= k < i ==> buckets[k] == Saturated(CountIn(samples, k) + CountIn(theirs, k))
        invariant forall k :: i <= k < HIST_BUCKETS ==> buckets[k] == Saturated(CountIn(samples, k))
      {
        SaturatedAdds(CountIn(samples, i), CountIn(theirs, i));
        assert others[..][i] == Saturated(CountIn(theirs, i));
        buckets[i] := Min(buckets[i] + others[i], U32_MAX);
      }
    }

    method Merge(other: LatencyHist)
      requires Valid() && other.Valid() && other != this && other.buckets != buckets
      modifies this, buckets
      ensures Valid() && samples == old(samples) + other.samples
    {
      AddCounters(other.buckets, other.samples);
      count := count + other.count;
      sumNs := sumNs + other.sumNs;
      CountsOfBoth(buckets[..], samples, other.samples);
      samples := samples + other.samples;
    }

    /** The value reported for a fraction: the end of the first bucket at which the running sum reaches its rank. */
    method Percentile(p: real) returns (us: nat)
      requires Valid()
      ensures count == 0 ==> us == 0
      ensures count > 0 ==> IsReported(buckets[..], RankOf(p, count), us)
    {
      if count == 0 {
        return 0;
      }
      var k, cum := RankOf(p, count), 0;
      assert buckets[..0] == [];
      for i := 0 to buckets.Length
        invariant cum == Sum(buckets[..i]) < k
      {
        assert buckets[..i + 1][..i] == buckets[..i];
        cum := cum + buckets[i];
        if cum >= k {
          assert buckets[..][..i + 1] == buckets[..i + 1] && buckets[..][..i] == buckets[..i];
          return BucketUpperUs(i);
        }
      }
      assert buckets[..buckets.Length] == buckets[..];
      return TEN_SECONDS;
    }
  }

  /** `us` ends the bucket holding rank `k`; it is ten seconds when the counters do not reach it. */
  ghost predicate IsReported(buckets: seq<nat>, k: nat, us: nat) {
    || (exists i :: 0 <= i < |buckets| && Sum(buckets[..i]) < k <= Sum(buckets[..i + 1]) && us == BucketUpperUs(i))
    || (Sum(buckets) < k && us == TEN_SECONDS)
  }

  // ---------------------------------------------------------------------
  // Against the true order statistics
  // ---------------------------------------------------------------------

  /** No bucket has been hit more often than its counter can count. */
  ghost predicate Unsaturated(samples: seq<nat>) {
    forall b :: 0 <= b < HIST_BUCKETS ==> CountIn(samples, b) <= U32_MAX
  }

  lemma FewSamplesDoNotSaturate(samples: seq<nat>)
    requires |samples| <= U32_MAX
    ensures Unsaturated(samples)
  {
  }

  lemma {:induction false} RunningSum(buckets: seq<nat>, samples: seq<nat>, i: nat)
    requires Counts(buckets, samples) && Unsaturated(samples) && i <= HIST_BUCKETS
    ensures Sum(buckets[..i]) == CountBelowBucket(samples, i)
  {
    if i == 0 {
      NoBucketBelowZero(samples);
    } else {
      RunningSum(buckets, samples, i - 1);
      NextBucket(samples, i - 1);
      assert buckets[..i][..i - 1] == buckets[..i - 1];
    }
  }

  lemma {:induction false} RunningSumGrows(samples: seq<nat>, i: nat, j: nat)
    requires i <= j
    ensures CountBelowBucket(samples, i) <= CountBelowBucket(samples, j)
  {
    if samples != [] {
      RunningSumGrows(samples[..|samples| - 1], i, j);
    }
  }

  /** The value reported for rank `k` ends the bucket of the `k`-th smallest sample. */
  lemma ReportedIsItsBucket(buckets: seq<nat>, samples: seq<nat>, k: nat, us: nat, x: nat)
    requires Counts(buckets, samples) && Unsaturated(samples) && 1 <= k
    requires IsReported(buckets, k, us) && IsKthSmallest(samples, k, x)
    ensures us == BucketUpperUs(BucketIndex(x))
  {
    BucketHoldsItsRanks(samples, x);
    RunningSum(buckets, samples, HIST_BUCKETS);
    assert buckets[..HIST_BUCKETS] == buckets;
    RunningSumGrows(samples, BucketIndex(x) + 1, HIST_BUCKETS);
    var i :| 0 <= i < |buckets| && Sum(buckets[..i]) < k <= Sum(buckets[..i + 1]) && us == BucketUpperUs(i);
    RunningSum(buckets, samples, i);
    RunningSum(buckets, samples, i + 1);
    if i < BucketIndex(x) {
      RunningSumGrows(samples, i + 1, BucketIndex(x));
    } else if i > BucketIndex(x) {
      RunningSumGrows(samples, BucketIndex(x) + 1, i);
    }
  }

  /**
   * Percentiles bracket the true order statistics: the value reported for rank `k` is above the
   * `k`-th smallest sample, by at most a hundredth of it or one microsecond, exactly when that
   * sample is under ten seconds. No bucket's counter may have saturated.
   */
  lemma PercentileBracketsExactlyWhen(buckets: seq<nat>, samples: seq<nat>, k: nat, us: nat, x: nat)
    requires Counts(buckets, samples) && Unsaturated(samples) && 1 <= k
    requires IsReported(buckets, k, us) && IsKthSmallest(samples, k, x)
    ensures x < us <= x + Max(1, x / 100) <==> x < TEN_SECONDS
  {
    ReportedIsItsBucket(buckets, samples, k, us, x);
    UpperIsAboveExactlyWhen(x);
  }
}
