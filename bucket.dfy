/** The leaf storage cell: a growable byte sequence with its own size counter. */
module Buckets {
  import opened Common

  class Bucket {
    /** The stored bytes, in insertion order. */
    var values: seq<byte>
    /** The counter the source keeps beside the slice for lock-free size reads. */
    var size: nat

    ghost predicate Valid()
      reads this
    {
      size == |values|
    }

    /** newBucket: an empty slice and a zero counter. */
    constructor ()
      ensures Valid()
      ensures values == [] && size == 0
    {
      values := [];
      size := 0;
    }

    /** Appends at the end; the source always reports success. */
    method Put(elem: byte) returns (ok: bool, err: Option<Error>)
      requires Valid()
      modifies this
      ensures Valid()
      ensures values == old(values) + [elem] && size == old(size) + 1
      ensures ok && err == None
    {
      values := values + [elem];
      size := size + 1;
      ok, err := true, None;
    }

    /** Bounds-checked read against the size counter; never changes the bucket. */
    method Get(index: int) returns (v: byte, err: Option<Error>)
      requires Valid()
      ensures err == None <==> 0 <= index < |values|
      ensures err == None ==> v == values[index]
      ensures err != None ==> err == Some(InvalidIndex) && v == 0
    {
      if index > size - 1 || index < 0 {
        return 0, Some(InvalidIndex);
      }
      return values[index], None;
    }

    /** Bounds-checked write of one position; everything else is kept. */
    method Set(index: int, value: byte) returns (ok: bool, err: Option<Error>)
      requires Valid()
      modifies this
      ensures Valid() && size == old(size)
      ensures ok <==> 0 <= index < old(size)
      ensures ok ==> err == None && values == old(values)[index := value]
      ensures !ok ==> err == Some(InvalidIndex) && values == old(values)
    {
      if size - 1 < index || index < 0 {
        return false, Some(InvalidIndex);
      }
      values := values[index := value];
      return true, None;
    }

    /**
     * Removes the element at `index`, shifting the later ones down.
     * The source's guard (bucket.go:67) also lets `index == size` through, where
     * the splice would fault; this is the corrected guard (see DeleteAsWritten).
     */
    method Delete(index: int) returns (ok: bool)
      requires Valid()
      modifies this
      ensures Valid()
      ensures ok <==> 0 <= index < old(size)
      ensures ok ==> values == old(values[..index] + values[index + 1..]) && size == old(size) - 1
      ensures ok ==> multiset(values) + multiset{old(values)[index]} == multiset(old(values))
      ensures !ok ==> values == old(values) && size == old(size)
    {
      if index < 0 || index >= size {
        return false;
      }
      assert old(values) == values[..index] + [values[index]] + values[index + 1..];
      values := values[..index] + values[index + 1..];
      size := size - 1;
      return true;
    }

    /** Drops every element. */
    method Clear()
      modifies this
      ensures Valid()
      ensures values == [] && size == 0
    {
      values := [];
      size := 0;
    }

    /** The counter, which under Valid() is the number of stored bytes. */
    method Size() returns (n: nat)
      requires Valid()
      ensures n == |values|
    {
      return size;
    }
  }

  /** Every bucket of a bucket array keeps its counter in step with its slice. */
  ghost predicate AllValid(bs: seq<Bucket>)
    reads bs
  {
    forall i :: 0 <= i < |bs| ==> bs[i].Valid()
  }

  /** No bucket object appears twice in a bucket array. */
  predicate Distinct(bs: seq<Bucket>)
  {
    forall i, j :: 0 <= i < j < |bs| ==> bs[i] != bs[j]
  }

  /**
   * A bucket array of `n` new empty buckets, filled in index order, the way
   * newSegment and a shrinking resize intend to fill theirs.
   */
  method NewBuckets(n: nat) returns (bs: seq<Bucket>, ghost owned: set<object>)
    ensures |bs| == n && AllValid(bs) && Distinct(bs)
    ensures forall i :: 0 <= i < n ==> bs[i].values == [] && bs[i] in owned
    ensures forall b :: b in bs ==> fresh(b)
    ensures fresh(owned)
  {
    bs, owned := [], {};
    for i := 0 to n
      invariant |bs| == i && AllValid(bs) && Distinct(bs)
      invariant forall k :: 0 <= k < i ==> bs[k].values == [] && bs[k] in owned
      invariant forall b :: b in bs ==> fresh(b)
      invariant fresh(owned)
    {
      var b := new Bucket();
      bs, owned := bs + [b], owned + {b};
    }
  }

  /** The abstract value of a bucket array: the byte sequence of each bucket. */
  ghost function Contents(bs: seq<Bucket>): (c: seq<seq<byte>>)
    reads bs
    ensures |c| == |bs|
    ensures forall i :: 0 <= i < |bs| ==> c[i] == bs[i].values
  {
    seq(|bs|, i requires 0 <= i < |bs| reads bs => bs[i].values)
  }

  /** What the source's Delete does, a run-time fault included. */
  datatype DeleteOutcome = Rejected | Faulted | Removed(rest: seq<byte>)

  /**
   * Delete as written: the guard rejects `index < 0` and `index > size` only, and
   * `values[index+1:]` faults when `index + 1` exceeds the slice length.
   */
  function DeleteAsWritten(values: seq<byte>, index: int): DeleteOutcome
  {
    if index < 0 || index > |values| then Rejected
    else if index + 1 > |values| then Faulted
    else Removed(values[..index] + values[index + 1..])
  }

  /** Every bucket, empty or not, faults on `Delete(Size())` as written. */
  lemma DeleteAsWrittenFaultsAtSize(values: seq<byte>)
    ensures DeleteAsWritten(values, |values|) == Faulted
    ensures forall index :: 0 <= index < |values| ==> DeleteAsWritten(values, index).Removed?
  {
  }
}
