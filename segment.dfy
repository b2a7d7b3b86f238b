/**
 * One shard: an array of buckets, the running byte total and its own resize
 * policy. Puts are spread round-robin on the byte total; indexed operations
 * pick bucket `index % bucketsLen`. After every successful mutation the policy
 * is consulted and may replace the bucket array.
 */
module Segments {
  import opened Common
  import opened Buckets
  import opened Layout
  import opened Redistribution

  /**
   * One Put on a segment that holds `before` under policy `p`: the byte joins
   * bucket SumSizes(before) % |before| (the byte total before the increment),
   * then the policy is consulted with the new total and that bucket's size.
   */
  ghost predicate PutStep(before: seq<seq<byte>>, p: Policy, elem: byte, after: seq<seq<byte>>, p': Policy)
  {
    && |before| > 0
    && var k := SumSizes(before) % |before|;
    Consulted(before[k := before[k] + [elem]], p, SumSizes(before) + 1, |before[k]| + 1, after, p')
  }

  /**
   * newSegment's bucket fill as written (segment.go:32-36): the index of the
   * first write outside the zero-length slice. The loop runs at least once,
   * so it always faults on its first write.
   */
  function SegmentFillAsWritten(bucketNum: int): (fault: Option<nat>)
    ensures fault == Some(0)
  {
    IndexedFill(0, 0, if bucketNum <= 0 then DefaultBucketNumber else bucketNum)
  }

  /** PutStep from the bucket the byte joined and the consultation that followed. */
  lemma PutStepOf(before: seq<seq<byte>>, k: nat, p: Policy, elem: byte, after: seq<seq<byte>>, p': Policy)
    requires |before| > 0 && k == SumSizes(before) % |before|
    requires Consulted(before[k := before[k] + [elem]], p, SumSizes(before) + 1, |before[k]| + 1, after, p')
    ensures PutStep(before, p, elem, after, p')
  {
  }

  /**
   * The first put into a new default segment: the byte lands in bucket 0, and
   * the policy, finding that bucket underweight, declines and keeps its state.
   */
  lemma FirstPutStep(before: seq<seq<byte>>, elem: byte, after: seq<seq<byte>>, p': Policy)
    requires |before| == DefaultBucketNumber && forall j :: 0 <= j < |before| ==> before[j] == []
    requires PutStep(before, DefaultPolicy, elem, after, p')
    ensures after == before[0 := [elem]] && p' == DefaultPolicy
  {
    FlattenEmpty(before);
    assert SumSizes(before) == 0;
    assert before[0] + [elem] == [elem];
    var middle := before[0 := [elem]];
    assert Consulted(middle, DefaultPolicy, 1, 1, after, p');
    FirstPutIntoDefaultSegment();
  }

  class Segment {
    var buckets: seq<Bucket>
    var bucketsLen: int
    var byteTotal: nat
    var byteRedistributor: ByteRedistributor
    /** The abstract value: the bytes of each bucket, in bucket order. */
    ghost var contents: seq<seq<byte>>
    /** Every object the segment owns: itself, its policy and its buckets. */
    ghost var Repr: set<object>

    /** The quiescent invariant: byteTotal is the sum of the bucket sizes. */
    ghost predicate Valid()
      reads this, Repr
    {
      this in Repr && byteRedistributor in Repr && byteRedistributor.Valid()
      && bucketsLen == |buckets| > 0 && |contents| == |buckets| && Distinct(buckets)
      && (forall i :: 0 <= i < |buckets| ==>
            buckets[i] in Repr && buckets[i].Valid() && buckets[i].values == contents[i])
      && byteTotal == SumSizes(contents)
    }

    /** The state of the segment's policy. */
    ghost function PolicyState(): (p: Policy)
      reads this, byteRedistributor
      ensures byteRedistributor.Valid() ==> p.loadDen > 0
    {
      byteRedistributor.State()
    }

    /**
     * newSegment with no caller-supplied policy: a non-positive bucket count
     * becomes 16, and the segment gets its own default policy. The source fills
     * the bucket array by indexed writes into a zero-length slice, which faults
     * (see IndexedFill); this builds the evidently intended array of fresh buckets.
     */
    constructor (bucketNum: int)
      ensures Valid() && fresh(Repr)
      ensures |contents| == if bucketNum <= 0 then DefaultBucketNumber else bucketNum
      ensures forall i :: 0 <= i < |contents| ==> contents[i] == []
      ensures byteTotal == 0
      ensures byteRedistributor.loadNum == DefaultLoadNum && byteRedistributor.loadDen == DefaultLoadDen
      ensures byteRedistributor.upperThreshold == 75
      ensures byteRedistributor.overweightBucketCount == 0 && byteRedistributor.emptyBucketCount == 0
      ensures PolicyState() == DefaultPolicy
    {
      var n := bucketNum;
      if n <= 0 {
        n := DefaultBucketNumber;
      }
      var bs, owned := NewBuckets(n);
      ghost var c: seq<seq<byte>> := seq(n, _ => []);
      FlattenEmpty(c);
      var br := new ByteRedistributor(DefaultLoadNum, DefaultLoadDen, n);
      assert br.loadNum == 3 && br.loadDen == 4;
      assert br.upperThreshold == 75;
      buckets, bucketsLen, byteTotal, byteRedistributor := bs, n, 0, br;
      contents, Repr := c, {this, br} + owned;
    }

    /**
     * Appends to bucket `byteTotal % bucketsLen` (the total before the
     * increment), bumps the total and lets the policy rebalance. Never fails.
     */
    method Put(elem: byte) returns (ok: bool, err: Option<Error>)
      requires Valid()
      modifies Repr
      ensures Valid() && fresh(Repr - old(Repr))
      ensures ok && err == None
      ensures byteTotal == old(byteTotal) + 1
      ensures var k := old(byteTotal % |contents|);
        Rebalanced(old(contents)[k := old(contents)[k] + [elem]], contents)
      ensures PutStep(old(contents), old(PolicyState()), elem, contents, PolicyState())
      ensures multiset(Flatten(contents)) == multiset(Flatten(old(contents))) + multiset{elem}
    {
      var k := byteTotal % bucketsLen;
      ok, err := AppendTo(k, elem);
      PutStepOf(old(contents), k, old(PolicyState()), elem, contents, PolicyState());
    }

    /** Put once the bucket is chosen (segment.go:48-51): bucket `k` takes the byte, then the policy rebalances. */
    method AppendTo(k: nat, elem: byte) returns (ok: bool, err: Option<Error>)
      requires Valid() && k < |contents|
      modifies Repr
      ensures Valid() && fresh(Repr - old(Repr))
      ensures ok && err == None
      ensures byteTotal == old(byteTotal) + 1
      ensures Rebalanced(old(contents)[k := old(contents)[k] + [elem]], contents)
      ensures var middle := old(contents)[k := old(contents)[k] + [elem]];
        Consulted(middle, old(PolicyState()), old(byteTotal) + 1, |middle[k]|, contents, PolicyState())
      ensures multiset(Flatten(contents)) == multiset(Flatten(old(contents))) + multiset{elem}
    {
      ghost var p := PolicyState();
      ok, err := PutIn(k, elem);
      ghost var middle, t := contents, byteTotal;
      assert PolicyState() == p;
      if ok {
        Rebalance(k);
      }
    }

    /** The bucket step of Put (segment.go:47-50): bucket `k` takes the byte and the total grows. */
    method PutIn(k: nat, elem: byte) returns (ok: bool, err: Option<Error>)
      requires Valid() && k < |contents|
      modifies buckets[k], this
      ensures Valid() && Repr == old(Repr) && buckets == old(buckets)
      ensures byteRedistributor == old(byteRedistributor) && unchanged(byteRedistributor)
      ensures ok && err == None
      ensures byteTotal == old(byteTotal) + 1 && contents == old(contents)[k := old(contents)[k] + [elem]]
      ensures multiset(Flatten(contents)) == multiset(Flatten(old(contents))) + multiset{elem}
    {
      ghost var before := contents;
      ok, err := buckets[k].Put(elem);
      AppendToBucket(before, k, elem);
      byteTotal, contents := byteTotal + 1, before[k := before[k] + [elem]];
    }

    /**
     * Reads through bucket `index % bucketsLen`, handing it the unreduced index.
     * As in the source, the read succeeds only when `index` is also within that
     * bucket's own size, which is rarely what a caller of a global index means.
     */
    method Get(index: int) returns (v: byte, err: Option<Error>)
      requires Valid() && index >= 0
      ensures var bucket := contents[index % |contents|];
        && (err == None <==> index < |bucket|)
        && (err == None ==> v == bucket[index])
        && (err != None ==> err == Some(InvalidIndex) && v == 0)
    {
      var b := buckets[index % bucketsLen];
      v, err := b.Get(index);
    }

    /**
     * Removes position `index` of bucket `index % bucketsLen` (unreduced index,
     * as in Get); on success the total drops by one and the policy rebalances.
     */
    method Delete(index: int) returns (ok: bool)
      requires Valid() && index >= 0
      modifies Repr
      ensures Valid() && fresh(Repr - old(Repr))
      ensures var k := old(index % |contents|); var bucket := old(contents)[k];
        && (ok <==> index < |bucket|)
        && (ok ==> byteTotal == old(byteTotal) - 1
                   && Rebalanced(old(contents)[k := bucket[..index] + bucket[index + 1..]], contents)
                   && multiset(Flatten(contents)) + multiset{bucket[index]} == multiset(Flatten(old(contents))))
        && (!ok ==> byteTotal == old(byteTotal) && contents == old(contents))
      ensures ok ==> var k := old(index % |contents|); var bucket := old(contents)[k];
        var middle := old(contents)[k := bucket[..index] + bucket[index + 1..]];
        Consulted(middle, old(PolicyState()), old(byteTotal) - 1, |middle[k]|, contents, PolicyState())
      ensures !ok ==> buckets == old(buckets) && PolicyState() == old(PolicyState())
    {
      var k := index % bucketsLen;
      ghost var p := PolicyState();
      ok := DeleteIn(k, index);
      ghost var middle, t := contents, byteTotal;
      assert PolicyState() == p;
      if ok {
        Rebalance(k);
        assert Consulted(middle, p, t, |middle[k]|, contents, PolicyState());
      }
    }

    /** The bucket step of Delete (segment.go:67-70): bucket `k` drops position `index` and the total shrinks. */
    method DeleteIn(k: nat, index: int) returns (ok: bool)
      requires Valid() && k < |contents| && index >= 0
      modifies buckets[k], this
      ensures Valid() && Repr == old(Repr) && buckets == old(buckets)
      ensures byteRedistributor == old(byteRedistributor) && unchanged(byteRedistributor)
      ensures var bucket := old(contents)[k];
        && (ok <==> index < |bucket|)
        && (ok ==> byteTotal == old(byteTotal) - 1
                   && contents == old(contents)[k := bucket[..index] + bucket[index + 1..]]
                   && multiset(Flatten(contents)) + multiset{bucket[index]} == multiset(Flatten(old(contents))))
        && (!ok ==> byteTotal == old(byteTotal) && contents == old(contents))
    {
      ghost var before := contents;
      ok := buckets[k].Delete(index);
      if ok {
        RemoveFromBucket(before, k, index);
        byteTotal, contents := byteTotal - 1, before[k := before[k][..index] + before[k][index + 1..]];
      }
    }

    /**
     * Writes through bucket `index % bucketsLen` with the unreduced index. Never
     * changes the byte total, the bucket array or any bucket's size.
     */
    method Set(index: int, value: byte) returns (ok: bool, err: Option<Error>)
      requires Valid() && index >= 0
      modifies Repr
      ensures Valid() && Repr == old(Repr)
      ensures byteTotal == old(byteTotal) && bucketsLen == old(bucketsLen) && buckets == old(buckets)
      ensures byteRedistributor == old(byteRedistributor) && unchanged(byteRedistributor)
      ensures var k := old(index % |contents|); var bucket := old(contents)[k];
        && (ok <==> index < |bucket|)
        && (ok ==> err == None && contents == old(contents)[k := bucket[index := value]])
        && (!ok ==> err == Some(InvalidIndex) && contents == old(contents))
    {
      ok, err := SetIn(index % bucketsLen, index, value);
    }

    /** The write of Set (segment.go:80-81), through bucket `k`. */
    method SetIn(k: nat, index: int, value: byte) returns (ok: bool, err: Option<Error>)
      requires Valid() && k < |contents| && index >= 0
      modifies buckets[k], this
      ensures Valid() && Repr == old(Repr)
      ensures byteTotal == old(byteTotal) && bucketsLen == old(bucketsLen) && buckets == old(buckets)
      ensures byteRedistributor == old(byteRedistributor)
      ensures var bucket := old(contents)[k];
        && (ok <==> index < |bucket|)
        && (ok ==> err == None && contents == old(contents)[k := bucket[index := value]])
        && (!ok ==> err == Some(InvalidIndex) && contents == old(contents))
    {
      ghost var before := contents;
      var b := buckets[k];
      ok, err := b.Set(index, value);
      if ok {
        FlattenUpdate(before, k, b.values);
        contents := before[k := b.values];
      }
    }

    /** The byte total, which is the number of bytes the buckets hold. */
    method Size() returns (n: nat)
      requires Valid()
      ensures n == SumSizes(contents) == |Flatten(contents)|
    {
      return byteTotal;
    }

    /**
     * The policy step that follows a successful bucket mutation (segment.go:51
     * and 71): the policy sees the new total and the size of bucket `k`, the
     * bucket just changed. The bytes stay the same, perhaps rearranged.
     */
    method Rebalance(k: nat)
      requires Valid() && k < |contents|
      modifies Repr
      ensures Valid() && fresh(Repr - old(Repr))
      ensures byteTotal == old(byteTotal)
      ensures Rebalanced(old(contents), contents)
      ensures multiset(Flatten(contents)) == multiset(Flatten(old(contents)))
      ensures Consulted(old(contents), old(PolicyState()), old(byteTotal), |old(contents)[k]|, contents, PolicyState())
    {
      ghost var before := contents;
      var size := buckets[k].Size();
      Redistribute(byteTotal, size);
      RebalancedKeepsBytes(before, contents);
    }

    /**
     * The source's private redistribute: refresh the threshold with the new total
     * and the bucket count, classify the bucket just touched, and adopt the new
     * bucket array if the policy resized.
     */
    method Redistribute(bytetotal: nat, bucketSize: nat)
      requires Valid()
      modifies Repr
      ensures Valid() && fresh(Repr - old(Repr))
      ensures byteTotal == old(byteTotal) && byteRedistributor == old(byteRedistributor)
      ensures Rebalanced(old(contents), contents)
      ensures Consulted(old(contents), old(PolicyState()), bytetotal, bucketSize, contents, PolicyState())
      ensures |contents| == old(|contents|) ==> buckets == old(buckets)
    {
      var status := Classify(bytetotal, bucketSize);
      Resize(status);
    }

    /** The policy refreshes its threshold and classifies the bucket just touched (segment.go:97-98). */
    method Classify(bytetotal: nat, bucketSize: nat) returns (status: Status)
      requires Valid()
      modifies byteRedistributor
      ensures Valid() && unchanged(this)
      ensures (status, PolicyState()) == Classified(old(PolicyState()), bytetotal, |contents|, bucketSize)
    {
      byteRedistributor.UpdateThreshold(bytetotal, bucketsLen);
      status := byteRedistributor.CheckBucketStatus(bytetotal, bucketSize);
    }

    /** The policy's resize step, and the adoption of its result (segment.go:99-103). */
    method Resize(status: Status)
      requires Valid()
      modifies Repr
      ensures Valid() && fresh(Repr - old(Repr))
      ensures byteTotal == old(byteTotal) && byteRedistributor == old(byteRedistributor)
      ensures Rebalanced(old(contents), contents)
      ensures var d := Decided(status, old(PolicyState()), old(|contents|));
        && PolicyState() == d.1
        && (d.0.Resize? ==> contents == Rehash(Flatten(old(contents)), d.0.newSize))
        && (!d.0.Resize? ==> contents == old(contents) && buckets == old(buckets))
    {
      assert Contents(buckets) == contents;
      var newBuckets, ok := byteRedistributor.Redistribute(status, buckets);
      if ok {
        ghost var c := Contents(newBuckets);
        assert forall i :: 0 <= i < |newBuckets| ==> newBuckets[i].values == c[i];
        Adopt(newBuckets, c);
      }
    }

    /**
     * The two assignments that adopt a resized bucket array (segment.go:100-101),
     * with the abstract value they give the segment.
     */
    method Adopt(newBuckets: seq<Bucket>, ghost c: seq<seq<byte>>)
      requires this in Repr && byteRedistributor in Repr && byteRedistributor.Valid()
      requires |newBuckets| > 0 && AllValid(newBuckets) && Distinct(newBuckets) && |c| == |newBuckets|
      requires forall i :: 0 <= i < |newBuckets| ==> newBuckets[i].values == c[i]
      requires SumSizes(c) == byteTotal
      modifies this
      ensures Valid()
      ensures Repr == old(Repr) + set b | b in newBuckets
      ensures contents == c && byteTotal == old(byteTotal) && byteRedistributor == old(byteRedistributor)
    {
      buckets, bucketsLen := newBuckets, |newBuckets|;
      contents := c;
      Repr := Repr + set b | b in newBuckets;
    }
  }

  /**
   * A new default segment after its first Put: the byte sits in bucket 0, the
   * threshold is 75, the underweight bucket does not trigger a resize, and
   * the array keeps its 16 buckets.
   */
  method NewSegmentFirstPut(elem: byte) returns (s: Segment)
    ensures s.Valid() && |s.contents| == DefaultBucketNumber
    ensures s.contents[0] == [elem] && forall i :: 1 <= i < |s.contents| ==> s.contents[i] == []
    ensures s.PolicyState() == DefaultPolicy
  {
    s := new Segment(0);
    FirstPutIntoDefaultSegment();
    var ok, err := s.Put(elem);
  }
}
