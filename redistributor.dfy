/**
 * The resize policy of a segment: a fullness threshold derived from the load
 * factor and the average bucket occupancy, a classification of the bucket just
 * touched, and the decision to double or halve the bucket array, with the
 * rehash that carries the decision out.
 */
module Redistribution {
  import opened Common
  import opened Buckets
  import opened Layout

  /** Hard cap on a bucket's size (DEFAULT_BUCKET_MAX_SIZE). */
  const MaxBucketSize: nat := 1000

  /** The default load factor 0.75, as the fraction DefaultLoadNum / DefaultLoadDen. */
  const DefaultLoadNum: nat := 3
  const DefaultLoadDen: nat := 4

  /** Classification of one bucket (the source's NORMAL, UNDERWEIGHT, OVERWEIGHT). */
  datatype Status = Normal | Underweight | Overweight

  /** What Redistribute decides: no resize, a no-op that resets the counters, or a resize. */
  datatype Decision = Decline | Reset | Resize(newSize: nat)

  function Max(a: int, b: int): int { if a < b then b else a }

  /**
   * UpdateThreshold's arithmetic: the integer average occupancy, raised to at
   * least 100, scaled by the load factor num/den and truncated.
   */
  function Threshold(byteTotal: nat, bucketNum: nat, num: nat, den: nat): (t: nat)
    requires bucketNum > 0 && den > 0
    ensures t * den <= Max(byteTotal / bucketNum, 100) * num < (t + 1) * den
    ensures 100 * num / den <= t
  {
    var average := byteTotal / bucketNum;
    var clamped := if average < 100 then 100 else average;
    DivIsMonotone(100 * num, clamped * num, den);
    clamped * num / den
  }

  lemma MulIsMonotone(d: nat, x: int, y: int)
    requires x <= y
    ensures d * x <= d * y
  {
    assert d * y - d * x == d * (y - x);
  }

  lemma DivIsMonotone(a: nat, b: nat, d: nat)
    requires a <= b && d > 0
    ensures a / d <= b / d
  {
    var qa, qb := a / d, b / d;
    assert d * qa <= a;
    assert b < d * (qb + 1);
    if qb + 1 <= qa {
      MulIsMonotone(d, qb + 1, qa);
    }
  }

  /** With the default load factor the threshold never drops below 75 bytes. */
  lemma DefaultThresholdAtLeast75(byteTotal: nat, bucketNum: nat)
    requires bucketNum > 0
    ensures Threshold(byteTotal, bucketNum, DefaultLoadNum, DefaultLoadDen) >= 75
  {
  }

  /** A larger byte total never lowers the threshold. */
  lemma ThresholdIsMonotone(total1: nat, total2: nat, bucketNum: nat, num: nat, den: nat)
    requires total1 <= total2 && bucketNum > 0 && den > 0
    ensures Threshold(total1, bucketNum, num, den) <= Threshold(total2, bucketNum, num, den)
  {
    DivIsMonotone(total1, total2, bucketNum);
    var c1, c2 := Max(total1 / bucketNum, 100), Max(total2 / bucketNum, 100);
    MulIsMonotone(num, c1, c2);
    DivIsMonotone(c1 * num, c2 * num, den);
  }

  /** The size Redistribute aims at for a status, before comparing it with the current size. */
  function TargetSize(status: Status, current: nat): nat
  {
    match status
    case Overweight => current * 2
    case Underweight => Max(current / 2, 2)
    case Normal => current
  }

  /**
   * Redistribute's decision, from the status of the bucket just touched, the
   * current number of buckets and the two counters.
   */
  function Decide(status: Status, current: nat, overweight: nat, empty: nat): (d: Decision)
    ensures d == Decline <==>
      status == Normal
      || (status == Overweight && overweight * 4 < current)
      || (status == Underweight && (current < 100 || empty * 4 < current))
    ensures d == Reset ==> current == 0 && status == Overweight
    ensures d.Resize? ==> d.newSize != current && d.newSize >= 2
    ensures d.Resize? && status == Overweight ==> d.newSize == 2 * current
    ensures d.Resize? && status == Underweight ==> 50 <= d.newSize == current / 2 < current
  {
    if status == Normal
      || (status == Overweight && overweight * 4 < current)
      || (status == Underweight && (current < 100 || empty * 4 < current))
    then Decline
    else if TargetSize(status, current) == current then Reset
    else Resize(TargetSize(status, current))
  }

  /** A resize either doubles the bucket array or, from at least 100 buckets, halves it. */
  lemma ResizeDoublesOrHalves(status: Status, current: nat, overweight: nat, empty: nat)
    requires Decide(status, current, overweight, empty).Resize?
    ensures var n := Decide(status, current, overweight, empty).newSize;
      n == 2 * current || (current >= 100 && n == current / 2)
  {
  }

  /**
   * Carrying out a resize decision on a bucket array is a Rebalanced step, and
   * it keeps the sum of the bucket sizes.
   */
  lemma ResizeIsRebalanced(status: Status, before: seq<seq<byte>>, overweight: nat, empty: nat)
    requires Decide(status, |before|, overweight, empty).Resize?
    ensures var n := Decide(status, |before|, overweight, empty).newSize;
      && n > 0
      && Rebalanced(before, Rehash(Flatten(before), n))
      && SumSizes(Rehash(Flatten(before), n)) == SumSizes(before)
  {
    var n := Decide(status, |before|, overweight, empty).newSize;
    ResizeDoublesOrHalves(status, |before|, overweight, empty);
    RehashPreservesBytes(Flatten(before), n);
  }

  /** The fields of a policy, as one value. */
  datatype Policy = Policy(loadNum: nat, loadDen: nat, upperThreshold: nat, overweight: nat, empty: nat)

  /** A new default policy (redistributor.go:26-35): load 3/4, threshold floor(100 * 3/4), no counts. */
  const DefaultPolicy: Policy := Policy(DefaultLoadNum, DefaultLoadDen, 75, 0, 0)

  /** CheckBucketStatus's classification of a bucket of `bucketSize` bytes against `threshold`. */
  function StatusOf(bucketSize: nat, threshold: nat): Status
  {
    if bucketSize > MaxBucketSize || bucketSize >= threshold then Overweight
    else if bucketSize == 0 || bucketSize < threshold / 4 then Underweight
    else Normal
  }

  /**
   * UpdateThreshold followed by CheckBucketStatus, as a segment calls them:
   * the status of the touched bucket and the policy afterwards.
   */
  function Classified(p: Policy, byteTotal: nat, bucketNum: nat, bucketSize: nat): (Status, Policy)
    requires bucketNum > 0 && p.loadDen > 0
  {
    var t := Threshold(byteTotal, bucketNum, p.loadNum, p.loadDen);
    var status := StatusOf(bucketSize, t);
    (status, p.(upperThreshold := t,
                overweight := p.overweight + (if status == Overweight then 1 else 0),
                empty := p.empty + (if status != Overweight && bucketSize == 0 then 1 else 0)))
  }

  /** Redistribute's decision on `current` buckets, and the policy afterwards. */
  function Decided(status: Status, p: Policy, current: nat): (Decision, Policy)
  {
    var d := Decide(status, current, p.overweight, p.empty);
    (d, if d == Decline then p else p.(overweight := 0, empty := 0))
  }

  /** The policy's whole reaction to one mutation of a segment: status, decision, new policy. */
  function Step(p: Policy, byteTotal: nat, bucketNum: nat, bucketSize: nat): (Status, Decision, Policy)
    requires bucketNum > 0 && p.loadDen > 0
  {
    var c := Classified(p, byteTotal, bucketNum, bucketSize);
    var d := Decided(c.0, c.1, bucketNum);
    (c.0, d.0, d.1)
  }

  /**
   * A segment holding `before` under policy `p` consulted the policy with the
   * new total and the touched bucket's size: it holds `after` under `p'`,
   * the bucket array rehashed to the new size exactly when the policy resized.
   */
  ghost predicate Consulted(before: seq<seq<byte>>, p: Policy, byteTotal: nat, bucketSize: nat,
                            after: seq<seq<byte>>, p': Policy)
  {
    && |before| > 0 && p.loadDen > 0
    && var o := Step(p, byteTotal, |before|, bucketSize);
    && p' == o.2
    && after == if o.1.Resize? then Rehash(Flatten(before), o.1.newSize) else before
  }

  /** Consulting the policy is a Rebalanced step. */
  lemma ConsultedIsRebalanced(before: seq<seq<byte>>, p: Policy, byteTotal: nat, bucketSize: nat,
                              after: seq<seq<byte>>, p': Policy)
    requires Consulted(before, p, byteTotal, bucketSize, after, p')
    ensures Rebalanced(before, after)
  {
    var c := Classified(p, byteTotal, |before|, bucketSize);
    if Decide(c.0, |before|, c.1.overweight, c.1.empty).Resize? {
      ResizeIsRebalanced(c.0, before, c.1.overweight, c.1.empty);
    }
  }

  /** A bucket array of fewer than 100 buckets is never halved: it keeps its size or doubles. */
  lemma SmallArraysOnlyGrow(p: Policy, byteTotal: nat, bucketNum: nat, bucketSize: nat)
    requires 0 < bucketNum < 100 && p.loadDen > 0
    ensures var o := Step(p, byteTotal, bucketNum, bucketSize);
      o.1.Resize? ==> o.0 == Overweight && o.1.newSize == 2 * bucketNum
  {
    var c := Classified(p, byteTotal, bucketNum, bucketSize);
    var d := Decide(c.0, bucketNum, c.1.overweight, c.1.empty);
    assert d.Resize? && c.0 == Underweight ==> bucketNum >= 100;
  }

  /**
   * The first put into a new default segment of 16 buckets: the threshold is
   * 75, the one-byte bucket is underweight but not empty, and the resize is
   * declined with both counters still 0.
   */
  lemma FirstPutIntoDefaultSegment()
    ensures Step(DefaultPolicy, 1, DefaultBucketNumber, 1) == (Underweight, Decline, DefaultPolicy)
  {
    assert Threshold(1, DefaultBucketNumber, DefaultLoadNum, DefaultLoadDen) == 75;
  }

  class ByteRedistributor {
    /** The load factor, as the fraction loadNum / loadDen. */
    var loadNum: nat
    var loadDen: nat
    var upperThreshold: nat
    var overweightBucketCount: nat
    var emptyBucketCount: nat

    ghost predicate Valid()
      reads this
    {
      loadNum > 0 && loadDen > 0
    }

    /** The fields, as one Policy value. */
    ghost function State(): (p: Policy)
      reads this
      ensures Valid() ==> p.loadDen > 0
    {
      Policy(loadNum, loadDen, upperThreshold, overweightBucketCount, emptyBucketCount)
    }

    /**
     * newByteRedistributor: a non-positive load factor becomes 0.75, and the
     * threshold starts as UpdateThreshold(0, bucketCount) makes it.
     */
    constructor (loadNum: int, loadDen: int, bucketCount: int)
      requires loadDen > 0 && bucketCount > 0
      ensures Valid()
      ensures loadNum <= 0 ==> this.loadNum == DefaultLoadNum && this.loadDen == DefaultLoadDen
      ensures loadNum > 0 ==> this.loadNum == loadNum && this.loadDen == loadDen
      ensures upperThreshold == 100 * this.loadNum / this.loadDen
      ensures overweightBucketCount == 0 && emptyBucketCount == 0
    {
      if loadNum <= 0 {
        this.loadNum, this.loadDen := DefaultLoadNum, DefaultLoadDen;
      } else {
        this.loadNum, this.loadDen := loadNum, loadDen;
      }
      upperThreshold, overweightBucketCount, emptyBucketCount := 0, 0, 0;
      new;
      UpdateThreshold(0, bucketCount);
    }

    /** Recomputes the threshold from the new byte total and the bucket count. */
    method UpdateThreshold(byteTotal: nat, bucketNum: int)
      requires Valid() && bucketNum > 0
      modifies this
      ensures Valid()
      ensures upperThreshold == Threshold(byteTotal, bucketNum, loadNum, loadDen)
      ensures loadNum == old(loadNum) && loadDen == old(loadDen)
      ensures overweightBucketCount == old(overweightBucketCount)
      ensures emptyBucketCount == old(emptyBucketCount)
    {
      var average := byteTotal / bucketNum;
      if average < 100 {
        average := 100;
      }
      upperThreshold := average * loadNum / loadDen;
    }

    /**
     * Classifies a bucket by its size and bumps the counter that belongs to the
     * outcome: overweight buckets and exactly empty ones are counted, merely
     * sparse ones are not. The byte total plays no part.
     */
    method CheckBucketStatus(byteTotal: nat, bucketSize: nat) returns (status: Status)
      modifies this
      ensures status == StatusOf(bucketSize, upperThreshold)
      ensures status == Overweight <==> bucketSize > MaxBucketSize || bucketSize >= upperThreshold
      ensures status == Underweight <==>
        !(bucketSize > MaxBucketSize || bucketSize >= upperThreshold)
        && (bucketSize == 0 || bucketSize < upperThreshold / 4)
      ensures overweightBucketCount == old(overweightBucketCount) + if status == Overweight then 1 else 0
      ensures emptyBucketCount == old(emptyBucketCount) + if status != Overweight && bucketSize == 0 then 1 else 0
      ensures upperThreshold == old(upperThreshold)
      ensures loadNum == old(loadNum) && loadDen == old(loadDen)
    {
      if bucketSize > MaxBucketSize || bucketSize >= upperThreshold {
        overweightBucketCount := overweightBucketCount + 1;
        return Overweight;
      }
      if bucketSize == 0 {
        emptyBucketCount := emptyBucketCount + 1;
        return Underweight;
      }
      if bucketSize < upperThreshold / 4 {
        return Underweight;
      }
      return Normal;
    }

    /**
     * Acts on the status of the bucket just touched. A declined resize keeps
     * both counters; the reset-only branch and a real resize clear them. A real
     * resize drains every bucket and re-routes each byte by its value.
     */
    method Redistribute(status: Status, buckets: seq<Bucket>) returns (newBuckets: seq<Bucket>, ok: bool)
      requires AllValid(buckets) && Distinct(buckets)
      modifies this, buckets
      ensures var d := Decide(status, |buckets|, old(overweightBucketCount), old(emptyBucketCount));
        && ok == d.Resize?
        && (d == Decline ==>
              overweightBucketCount == old(overweightBucketCount) && emptyBucketCount == old(emptyBucketCount))
        && (d != Decline ==> overweightBucketCount == 0 && emptyBucketCount == 0)
        && (ok ==> |newBuckets| == d.newSize)
      ensures State() == Decided(status, old(State()), |buckets|).1
      ensures upperThreshold == old(upperThreshold)
      ensures loadNum == old(loadNum) && loadDen == old(loadDen)
      ensures !ok ==> newBuckets == [] && unchanged(buckets)
      ensures ok ==> AllValid(newBuckets) && Distinct(newBuckets)
      ensures ok ==> Contents(newBuckets) == Rehash(Flatten(old(Contents(buckets))), |newBuckets|)
      ensures ok ==> forall b :: b in newBuckets ==> b in buckets || fresh(b)
      ensures ok ==> Rebalanced(old(Contents(buckets)), Contents(newBuckets))
      ensures ok ==> SumSizes(Contents(newBuckets)) == SumSizes(old(Contents(buckets)))
    {
      ghost var before := Contents(buckets);
      var currentSize := |buckets|;
      var newSize: int;
      match status {
        case Overweight =>
          if overweightBucketCount * 4 < currentSize {
            return [], false;
          }
          newSize := currentSize * 2;
        case Underweight =>
          if currentSize < 100 || emptyBucketCount * 4 < currentSize {
            return [], false;
          }
          newSize := currentSize / 2;
          if newSize < 2 {
            newSize := 2;
          }
        case Normal =>
          return [], false;
      }

      if newSize == currentSize {
        overweightBucketCount, emptyBucketCount := 0, 0;
        return [], false;
      }

      ghost var decision := Decide(status, currentSize, overweightBucketCount, emptyBucketCount);
      assert decision == Resize(newSize);
      newBuckets := Rebuild(buckets, newSize);
      assert |newBuckets| == newSize;
      ResizeIsRebalanced(status, before, old(overweightBucketCount), old(emptyBucketCount));

      overweightBucketCount, emptyBucketCount := 0, 0;
      return newBuckets, true;
    }
  }

  /** The body of a real resize: drain, rebuild the array at its new size, reinsert. */
  method Rebuild(buckets: seq<Bucket>, newSize: nat) returns (nb: seq<Bucket>)
    requires AllValid(buckets) && Distinct(buckets) && newSize > 0
    modifies buckets
    ensures |nb| == newSize && AllValid(nb) && Distinct(nb)
    ensures Contents(nb) == Rehash(Flatten(old(Contents(buckets))), newSize)
    ensures forall b :: b in nb ==> b in buckets || fresh(b)
  {
    var values := Drain(buckets);
    nb := Regrow(buckets, newSize);
    assert forall i :: 0 <= i < |nb| ==> nb[i] in buckets || fresh(nb[i]);
    Reinsert(nb, values);
  }

  /**
   * The drain loop of Redistribute: reads every bucket through its bounds-checked
   * Get, bucket after bucket. Get cannot fail here because the index stays below
   * the bucket's size, so the source's early return on a read error is dead.
   */
  method Drain(buckets: seq<Bucket>) returns (values: seq<byte>)
    requires AllValid(buckets)
    ensures values == Flatten(Contents(buckets))
  {
    var c := Contents(buckets);
    values := [];
    for bi := 0 to |buckets|
      invariant values == Flatten(c[..bi])
    {
      var b := buckets[bi];
      var i := 0;
      while i < b.size
        invariant 0 <= i <= b.size
        invariant values == Flatten(c[..bi]) + b.values[..i]
      {
        var value, err := b.Get(i);
        values := values + [value];
        i := i + 1;
      }
      assert b.values[..i] == c[bi];
      assert c[..bi + 1][..bi] == c[..bi];
    }
    assert c[..|buckets|] == c;
  }

  /**
   * The middle of Redistribute: growing clears the existing buckets in place and
   * appends fresh ones; shrinking allocates newSize fresh buckets. The source
   * builds the shrunk array by indexed writes into a zero-length slice, which
   * faults (see IndexedFill); this is the evident intent.
   */
  method Regrow(buckets: seq<Bucket>, newSize: nat) returns (nb: seq<Bucket>)
    requires Distinct(buckets)
    modifies buckets
    ensures |nb| == newSize && AllValid(nb) && Distinct(nb)
    ensures forall i :: 0 <= i < |nb| ==> nb[i].values == []
    ensures forall b :: b in nb ==> b in buckets || fresh(b)
  {
    if newSize > |buckets| {
      for i := 0 to |buckets|
        invariant forall k :: 0 <= k < i ==> buckets[k].values == [] && buckets[k].Valid()
      {
        buckets[i].Clear();
      }
      nb := buckets;
      var j := newSize - |buckets|;
      while j > 0
        invariant 0 <= j <= newSize - |buckets|
        invariant |nb| == newSize - j
        invariant AllValid(nb) && Distinct(nb)
        invariant forall i :: 0 <= i < |nb| ==> nb[i].values == []
        invariant forall b :: b in nb ==> b in buckets || fresh(b)
      {
        var b := new Bucket();
        nb := nb + [b];
        j := j - 1;
      }
    } else {
      ghost var owned;
      nb, owned := NewBuckets(newSize);
    }
  }

  /** The last loop of Redistribute: each drained byte v goes to bucket v % |nb|. */
  method Reinsert(nb: seq<Bucket>, values: seq<byte>)
    requires |nb| > 0 && AllValid(nb) && Distinct(nb)
    requires forall i :: 0 <= i < |nb| ==> nb[i].values == []
    modifies nb
    ensures AllValid(nb)
    ensures Contents(nb) == Rehash(values, |nb|)
  {
    var n := |nb|;
    for k := 0 to |values|
      invariant AllValid(nb)
      invariant forall j :: 0 <= j < n ==> nb[j].values == Route(values[..k], n, j)
    {
      var v := values[k];
      assert values[..k + 1] == values[..k] + [v];
      RehashSnoc(values[..k], v, n);
      assert Rehash(values[..k + 1], n)[v % n] == Route(values[..k + 1], n, v % n);
      var ok, err := nb[v % n].Put(v);
      forall j | 0 <= j < n
        ensures nb[j].values == Route(values[..k + 1], n, j)
      {
        assert Rehash(values[..k + 1], n)[j] == Route(values[..k + 1], n, j);
      }
    }
    assert values[..|values|] == values;
  }

  /** The first index at or after `from` that an indexed write loop `for i < n` would write beyond a slice of length `len`, if any. */
  function IndexedFill(len: nat, from: nat, n: nat): Option<nat>
    decreases n - from
  {
    if from >= n then None
    else if from >= len then Some(from)
    else IndexedFill(len, from + 1, n)
  }

  /**
   * The shrinking branch's fill as written (redistributor.go:124-127): the
   * index of the first write outside the zero-length slice, if any. Every
   * shrink has newSize >= 2, so every shrink faults on its first write.
   */
  function ShrinkFillAsWritten(newSize: nat): (fault: Option<nat>)
    ensures newSize > 0 <==> fault == Some(0)
    ensures newSize == 0 <==> fault == None
  {
    IndexedFill(0, 0, newSize)
  }

  /**
   * As written, both newSegment and the shrinking branch of Redistribute write
   * buckets[0] of a zero-length slice first, so every such call faults at index 0.
   */
  lemma {:induction false} IndexedFillFaults(len: nat, from: nat, n: nat)
    requires from <= len < n
    ensures IndexedFill(len, from, n) == Some(len)
    decreases len - from
  {
    if from < len {
      IndexedFillFaults(len, from + 1, n);
    }
  }
}
