/** The latency histogram: buckets by magnitude, 256 slots in each. */
module Histogram {
  import opened Wrappers
  import opened Arith

  const SIGNIFICANT_BITS: nat := 8
  const SLOTS: nat := 256
  const MAX_BUCKET: nat := 56

  // --------------------------------------------------------------------- locating

  /** `ilog2`. */
  function Log2(v: nat): nat
    requires v > 0
  {
    if v == 1 then 0 else 1 + Log2(v / 2)
  }

  lemma {:induction false} Log2Bounds(v: nat)
    requires v > 0
    ensures Pow2(Log2(v)) <= v < 2 * Pow2(Log2(v))
  {
    if v > 1 { Log2Bounds(v / 2); }
  }

  lemma Log2IsLeast(v: nat, k: nat)
    requires v > 0
    ensures v >= Pow2(k) ==> Log2(v) >= k
    ensures v < Pow2(k) ==> Log2(v) < k
  {
    Log2Bounds(v);
    if Log2(v) < k { Pow2Grows(Log2(v) + 1, k); } else { Pow2Grows(k, Log2(v)); }
  }

  lemma Pow8()
    ensures Pow2(8) == 256 && Pow2(64) == 0x1_0000_0000_0000_0000
  {
    Pow64();
    assert Pow2(8) == 2 * Pow2(7);
  }

  /** The width of a slot. */
  function Step(bucket: nat): (p: nat)
    ensures p >= 1
  {
    if bucket == 0 then 1 else Pow2(bucket - 1)
  }

  lemma SlotFits(v: nat, p: nat)
    requires p >= 1 && SLOTS * p <= v < 2 * SLOTS * p
    ensures SLOTS <= v / p < 2 * SLOTS && v / p * p <= v < v / p * p + p
  {
    assert v == v / p * p + v % p;
  }

  /** Bucket and slot to the slot's lower edge. */
  function BucketValue(bucket: nat, slot: nat): nat {
    if bucket == 0 then slot else (slot + SLOTS) * Pow2(bucket - 1)
  }

  /** Value to bucket and slot. */
  function Locate(v: u64): (at: (nat, nat))
    ensures at.0 <= MAX_BUCKET && at.1 < SLOTS
    ensures BucketValue(at.0, at.1) <= v < BucketValue(at.0, at.1) + Step(at.0)
    ensures at.0 >= 1 ==> SLOTS * Step(at.0) <= v < 2 * SLOTS * Step(at.0)
    ensures at.0 == 0 <==> v < SLOTS
  {
    if v < SLOTS then (0, v)
    else
      Pow8();
      Log2IsLeast(v, 8);
      Log2IsLeast(v, 64);
      var bucket := Log2(v) - SIGNIFICANT_BITS + 1;
      Log2Bounds(v);
      Pow2Adds(bucket - 1, 8);
      SlotFits(v, Pow2(bucket - 1));
      var shifted := v / Pow2(bucket - 1);
      (bucket, shifted - SLOTS)
  }

  function Index(v: u64): (i: nat)
    ensures i < (MAX_BUCKET + 1) * SLOTS
  {
    var (bucket, slot) := Locate(v);
    bucket * SLOTS + slot
  }

  function Lower(v: u64): nat {
    var (bucket, slot) := Locate(v);
    BucketValue(bucket, slot)
  }

  /** The lower edge is at most one part in 256 below the value. */
  lemma LowerIsClose(v: u64)
    ensures Lower(v) <= v && 256 * (v - Lower(v)) <= v
    ensures Lower(v) == 0 <==> v == 0
  {
    var at := Locate(v);
    hide Locate, BucketValue;
    if at.0 == 0 { assert Step(0) == 1; }
  }

  lemma BucketsAscend(a: nat, b: nat)
    requires 1 <= a < b
    ensures 2 * Step(a) <= Step(b)
  {
    Pow2Grows(a, b - 1);
  }

  lemma SlotsAscend(u: nat, v: nat, bucket: nat, s: nat, t: nat)
    requires u <= v && BucketValue(bucket, s) <= u && v < BucketValue(bucket, t) + Step(bucket)
    ensures s <= t
  {
    var p := Step(bucket);
    assert (t + SLOTS + 1) * p == (t + SLOTS) * p + p;
  }

  /** Larger values never lie in earlier slots. */
  lemma IndexKeepsOrder(u: u64, v: u64)
    requires u <= v
    ensures Index(u) <= Index(v)
  {
    var a, b := Locate(u), Locate(v);
    if a.0 > b.0 {
      BucketsAscend(b.0, a.0);
    } else if a.0 == b.0 {
      SlotsAscend(u, v, a.0, a.1, b.1);
    }
  }

  // --------------------------------------------------------------------- counting

  ghost predicate Sorted(s: seq<u64>) {
    forall i, j :: 0 <= i < j < |s| ==> s[i] <= s[j]
  }

  /** The samples with one more, in order. */
  ghost function Insert(s: seq<u64>, v: u64): seq<u64> {
    if s == [] || s[|s| - 1] <= v then s + [v] else Insert(s[..|s| - 1], v) + [s[|s| - 1]]
  }

  lemma SortedSnoc(s: seq<u64>, last: u64)
    requires Sorted(s) && forall x :: x in s ==> x <= last
    ensures Sorted(s + [last])
  {
    forall i | 0 <= i < |s| ensures s[i] <= last { assert s[i] in s; }
  }

  lemma SortedLast(s: seq<u64>)
    requires Sorted(s) && s != []
    ensures Sorted(s[..|s| - 1]) && forall x :: x in s ==> x <= s[|s| - 1]
  {}

  lemma {:induction false} InsertSorts(s: seq<u64>, v: u64)
    requires Sorted(s)
    ensures Sorted(Insert(s, v)) && multiset(Insert(s, v)) == multiset(s) + multiset{v}
    ensures |Insert(s, v)| == |s| + 1
    ensures forall x :: x in Insert(s, v) <==> x in s || x == v
  {
    if s != [] { SortedLast(s); }
    if s == [] || s[|s| - 1] <= v {
      hide Sorted;
      SortedSnoc(s, v);
    } else {
      hide Sorted;
      var front, last := s[..|s| - 1], s[|s| - 1];
      assert s == front + [last];
      InsertSorts(front, v);
      SortedSnoc(Insert(front, v), last);
    }
  }

  /** How many samples lie in slot `i`. */
  function InSlot(s: seq<u64>, i: nat): nat {
    if s == [] then 0 else InSlot(s[..|s| - 1], i) + if Index(s[|s| - 1]) == i then 1 else 0
  }

  /** How many samples lie before slot `i`. */
  function Before(s: seq<u64>, i: nat): (n: nat)
    ensures n <= |s|
  {
    if s == [] then 0 else Before(s[..|s| - 1], i) + if Index(s[|s| - 1]) < i then 1 else 0
  }

  lemma {:induction false} BeforeNext(s: seq<u64>, i: nat)
    ensures Before(s, i + 1) == Before(s, i) + InSlot(s, i)
  {
    if s != [] { BeforeNext(s[..|s| - 1], i); }
  }

  lemma {:induction false} BeforeEnds(s: seq<u64>)
    ensures Before(s, 0) == 0 && Before(s, (MAX_BUCKET + 1) * SLOTS) == |s|
  {
    if s != [] { BeforeEnds(s[..|s| - 1]); }
  }

  lemma {:induction false} InSlotInsert(s: seq<u64>, v: u64, i: nat)
    ensures InSlot(Insert(s, v), i) == InSlot(s, i) + if Index(v) == i then 1 else 0
  {
    if s == [] || s[|s| - 1] <= v {
      assert (s + [v])[..|s|] == s;
    } else {
      var front, last := s[..|s| - 1], s[|s| - 1];
      InSlotInsert(front, v, i);
      assert (Insert(front, v) + [last])[..|Insert(front, v)|] == Insert(front, v);
    }
  }

  lemma {:induction false} BeforeIsAtMost(s: seq<u64>, i: nat, r: nat)
    requires r <= |s| && forall k :: r <= k < |s| ==> Index(s[k]) >= i
    ensures Before(s, i) <= r
  {
    if |s| > r {
      BeforeIsAtMost(s[..|s| - 1], i, r);
    }
  }

  lemma {:induction false} BeforeIsAtLeast(s: seq<u64>, i: nat, r: nat)
    requires r <= |s| && forall k :: 0 <= k < r ==> Index(s[k]) < i
    ensures Before(s, i) >= r
  {
    if r > 0 {
      var front := s[..|s| - 1];
      BeforeIsAtLeast(front, i, if r == |s| then r - 1 else r);
    }
  }

  /** Counting up the slots passes `r` in the slot of the `r`-th smallest sample. */
  lemma RankFalls(s: seq<u64>, r: nat)
    requires Sorted(s) && 1 <= r <= |s|
    ensures Before(s, Index(s[r - 1])) < r <= Before(s, Index(s[r - 1]) + 1)
  {
    var i := Index(s[r - 1]);
    hide Index;
    forall k | r - 1 <= k < |s| ensures Index(s[k]) >= i { IndexKeepsOrder(s[r - 1], s[k]); }
    forall k | 0 <= k < r ensures Index(s[k]) < i + 1 { IndexKeepsOrder(s[k], s[r - 1]); }
    BeforeIsAtMost(s, i, r - 1);
    BeforeIsAtLeast(s, i + 1, r);
  }

  lemma {:induction false} BeforeGrows(s: seq<u64>, i: nat, j: nat)
    requires i <= j
    ensures Before(s, i) <= Before(s, j)
  {
    if s != [] { BeforeGrows(s[..|s| - 1], i, j); }
  }

  lemma SlotLower(v: u64, bucket: nat, slot: nat)
    requires slot < SLOTS && bucket * SLOTS + slot == Index(v)
    ensures BucketValue(bucket, slot) == Lower(v)
  {
    hide Locate, BucketValue;
  }

  lemma PassedAt(s: seq<u64>, r: nat, i: nat)
    requires Sorted(s) && 1 <= r <= |s| && Before(s, i) < r <= Before(s, i + 1)
    ensures i == Index(s[r - 1])
  {
    hide Before, Index, Sorted;
    var found := Index(s[r - 1]);
    RankFalls(s, r);
    if i < found { BeforeGrows(s, i + 1, found); }
    if found < i { BeforeGrows(s, found + 1, i); }
  }

  /** The slot where the count passes `r` reports the `r`-th smallest sample. */
  lemma FirstPast(s: seq<u64>, r: nat, bucket: nat, slot: nat)
    requires Sorted(s) && 1 <= r <= |s| && slot < SLOTS
    requires Before(s, bucket * SLOTS + slot) < r <= Before(s, bucket * SLOTS + slot + 1)
    ensures BucketValue(bucket, slot) == Lower(s[r - 1])
  {
    hide Before, Index, Lower, BucketValue, Sorted;
    PassedAt(s, r, bucket * SLOTS + slot);
    SlotLower(s[r - 1], bucket, slot);
  }

  function Total(counts: seq<nat>): nat {
    if counts == [] then 0 else Total(counts[..|counts| - 1]) + counts[|counts| - 1]
  }

  lemma {:induction false} TotalIsBefore(s: seq<u64>, counts: seq<nat>)
    requires |counts| <= (MAX_BUCKET + 1) * SLOTS && forall i :: 0 <= i < |counts| ==> counts[i] == InSlot(s, i)
    ensures Total(counts) == Before(s, |counts|)
    decreases |counts|
  {
    hide Before, InSlot;
    if counts == [] {
      BeforeEnds(s);
    } else {
      TotalIsBefore(s, counts[..|counts| - 1]);
      BeforeNext(s, |counts| - 1);
    }
  }

  /** No sample is lost: the slots add up to the number of samples. */
  lemma SlotsAddUp(s: seq<u64>, counts: seq<nat>)
    requires |counts| == (MAX_BUCKET + 1) * SLOTS && forall i :: 0 <= i < |counts| ==> counts[i] == InSlot(s, i)
    ensures Total(counts) == |s|
  {
    TotalIsBefore(s, counts);
    BeforeEnds(s);
  }

  function Least(a: u64, b: u64): u64 {
    if b < a then b else a
  }

  function Greatest(a: u64, b: u64): u64 {
    if b > a then b else a
  }

  /** `ceil(pct * n / 100)`, at most `n`. */
  function Rank(n: nat, pct: nat): nat {
    var r := (n * pct + 99) / 100;
    if r <= n then r else n
  }

  lemma RankIsPositive(n: nat, pct: nat)
    requires n > 0 && pct > 0
    ensures 1 <= Rank(n, pct) <= n
    ensures pct <= 100 ==> 100 * (Rank(n, pct) - 1) < n * pct <= 100 * Rank(n, pct)
    ensures pct >= 100 ==> Rank(n, pct) == n
  {
    assert n * pct >= 1;
  }

  /** What a percentile answers for some samples in order. */
  ghost predicate IsPercentile(s: seq<u64>, pct: nat, r: nat) {
    && (s == [] || pct == 0 ==> r == 0)
    && (s != [] && pct > 0 ==> 1 <= Rank(|s|, pct) <= |s| && r == Lower(s[Rank(|s|, pct) - 1]))
  }

  /** A percentile is never above the true quantile and at most one part in 256 below. */
  lemma PercentileIsClose(s: seq<u64>, pct: nat, r: nat)
    requires IsPercentile(s, pct, r) && s != [] && pct > 0
    ensures var q := s[Rank(|s|, pct) - 1]; r <= q && 256 * (q - r) <= q
  {
    LowerIsClose(s[Rank(|s|, pct) - 1]);
  }

  /** The documented rank is at least 1; the code's is 0 for percentage 0, which
      gives the same answer exactly when the least sample is 0. */
  lemma ZeroPercentIff(s: seq<u64>, r: nat)
    requires IsPercentile(s, 0, r) && s != []
    ensures r == Lower(s[0]) <==> s[0] == 0
  {
    LowerIsClose(s[0]);
  }

  lemma RankIsZero(n: nat)
    ensures Rank(n, 0) == 0
  {}

  lemma Reported(s: seq<u64>, pct: nat, bucket: nat, slot: nat)
    requires Sorted(s) && s != [] && slot < SLOTS
    requires bucket * SLOTS + slot > 0 || pct > 0 ==> Before(s, bucket * SLOTS + slot) < Rank(|s|, pct)
    requires Rank(|s|, pct) <= Before(s, bucket * SLOTS + slot + 1)
    ensures IsPercentile(s, pct, BucketValue(bucket, slot))
  {
    hide Before, Lower, Sorted, Rank;
    if pct > 0 {
      RankIsPositive(|s|, pct);
      FirstPast(s, Rank(|s|, pct), bucket, slot);
    } else {
      RankIsZero(|s|);
    }
  }

  // ---------------------------------------------------------------- the histogram

  ghost function Sum(s: seq<u64>): nat {
    if s == [] then 0 else Sum(s[..|s| - 1]) + s[|s| - 1]
  }

  lemma {:induction false} SumInsert(s: seq<u64>, v: u64)
    ensures Sum(Insert(s, v)) == Sum(s) + v
  {
    if s == [] || s[|s| - 1] <= v {
      assert (s + [v])[..|s|] == s;
    } else {
      var front, last := s[..|s| - 1], s[|s| - 1];
      SumInsert(front, v);
      assert (Insert(front, v) + [last])[..|Insert(front, v)|] == Insert(front, v);
    }
  }

  lemma {:induction false} InsertEnds(s: seq<u64>, v: u64)
    requires Sorted(s)
    ensures var t := Insert(s, v);
            && t != []
            && t[0] == Least(if s == [] then U64_MAX else s[0], v)
            && t[|t| - 1] == Greatest(if s == [] then 0 else s[|s| - 1], v)
  {
    if s != [] && s[|s| - 1] > v { InsertEnds(s[..|s| - 1], v); }
  }

  lemma RankIsAtMost(n: nat, pct: nat)
    ensures Rank(n, pct) <= n
  {}

  class LatencyHist {
    const counts: array<nat>
    var total: nat
    var min: u64
    var max: u64
    var sum: nat
    /** Every sample so far, in ascending order. */
    ghost var samples: seq<u64>

    ghost predicate Valid()
      reads this, counts
    {
      && counts.Length == (MAX_BUCKET + 1) * SLOTS
      && Sorted(samples) && total == |samples|
      && (forall i :: 0 <= i < counts.Length ==> counts[i] == InSlot(samples, i))
      && (if samples == [] then min == U64_MAX && max == 0 else min == samples[0] && max == samples[|samples| - 1])
      && sum == Sum(samples)
    }

    constructor ()
      ensures Valid() && samples == [] && fresh(counts)
    {
      counts := new nat[(MAX_BUCKET + 1) * SLOTS](_ => 0);
      total, min, max, sum, samples := 0, U64_MAX, 0, 0, [];
    }

    method Tally(ns: u64)
      requires counts.Length == (MAX_BUCKET + 1) * SLOTS && forall i :: 0 <= i < counts.Length ==>
          counts[i] == InSlot(samples, i)
      modifies counts
      ensures forall i :: 0 <= i < counts.Length ==> counts[i] == InSlot(Insert(samples, ns), i)
    {
      var at := Locate(ns);
      var i := at.0 * SLOTS + at.1;
      assert i == Index(ns);
      hide Index, Locate, Insert, InSlot;
      counts[i] := counts[i] + 1;
      forall k | 0 <= k < counts.Length ensures counts[k] == InSlot(Insert(samples, ns), k) {
        InSlotInsert(samples, ns, k);
      }
    }

    method RecordNs(ns: u64)
      requires Valid()
      modifies this, counts
      ensures Valid() && samples == Insert(old(samples), ns)
    {
      hide Index, Insert, InSlot, Sorted, Sum, Least, Greatest;
      Tally(ns);
      InsertSorts(samples, ns);
      InsertEnds(samples, ns);
      SumInsert(samples, ns);
      total := total + 1;
      min, max, sum := Least(min, ns), Greatest(max, ns), sum + ns;
      samples := Insert(samples, ns);
    }

    /** The lower edge of the slot of the sample at the rank; 0 when there is none. */
    method PercentileNs(pct: u64) returns (r: nat)
      requires Valid()
      ensures IsPercentile(samples, pct, r)
    {
      if total == 0 { return 0; }
      BeforeEnds(samples);
      var rank := Rank(total, pct);
      assert pct > 0 ==> rank > 0 by { if pct > 0 { RankIsPositive(total, pct); } }
      hide IsPercentile, BucketValue, Rank, Before, InSlot, Sorted, Sum;
      RankIsAtMost(total, pct);
      var seen := 0;
      for bucket := 0 to MAX_BUCKET + 1
        invariant seen == Before(samples, bucket * SLOTS) && (bucket > 0 || pct > 0 ==> seen < rank)
      {
        for slot := 0 to SLOTS
          invariant seen == Before(samples, bucket * SLOTS + slot) && (bucket * SLOTS + slot > 0 || pct > 0 ==>
              seen < rank)
        {
          BeforeNext(samples, bucket * SLOTS + slot);
          seen := seen + counts[bucket * SLOTS + slot];
          if seen >= rank {
            Reported(samples, pct, bucket, slot);
            return BucketValue(bucket, slot);
          }
        }
      }
      assert false;
    }
  }
}
