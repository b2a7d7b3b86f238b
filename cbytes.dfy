/**
 * The public container: a fixed number of segments, each append going to the
 * segment selected by the running total, so that consecutive appends are spread
 * round-robin over the segments.
 */
module CBytes {
  import opened Common
  import opened Layout
  import opened Segments
  import Redistribution

  /** Number of bytes held by all segments together. */
  function Count(shards: seq<seq<seq<byte>>>): nat
  {
    if shards == [] then 0 else Count(shards[..|shards| - 1]) + SumSizes(shards[|shards| - 1])
  }

  /** The bytes held by all segments together, with their multiplicities. */
  function Bag(shards: seq<seq<seq<byte>>>): multiset<byte>
  {
    if shards == [] then multiset{}
    else Bag(shards[..|shards| - 1]) + multiset(Flatten(shards[|shards| - 1]))
  }

  /** Replacing one segment's contents changes the stored bytes by exactly the difference. */
  lemma {:induction false} BagUpdate(shards: seq<seq<seq<byte>>>, k: nat, x: seq<seq<byte>>)
    requires k < |shards|
    ensures Bag(shards[k := x]) + multiset(Flatten(shards[k])) == Bag(shards) + multiset(Flatten(x))
    decreases |shards|
  {
    var last := |shards| - 1;
    var init := shards[..last];
    assert shards == init + [shards[last]];
    if k == last {
      assert shards[k := x] == init + [x];
      assert (init + [x])[..last] == init;
    } else {
      var y := shards[last];
      assert shards[k := x] == init[k := x] + [y];
      assert (init[k := x] + [y])[..last] == init[k := x];
      BagUpdate(init, k, x);
      var a, b := Bag(init[k := x]), Bag(init);
      assert a + multiset(Flatten(init[k])) == b + multiset(Flatten(x));
      assert Bag(shards[k := x]) == a + multiset(Flatten(y));
      assert Bag(shards) == b + multiset(Flatten(y));
      calc {
        Bag(shards[k := x]) + multiset(Flatten(shards[k]));
        a + multiset(Flatten(y)) + multiset(Flatten(init[k]));
        b + multiset(Flatten(x)) + multiset(Flatten(y));
        Bag(shards) + multiset(Flatten(x));
      }
    }
  }

  /** Replacing one segment's contents changes the count by exactly the difference. */
  lemma {:induction false} CountUpdate(shards: seq<seq<seq<byte>>>, k: nat, x: seq<seq<byte>>)
    requires k < |shards|
    ensures Count(shards[k := x]) + SumSizes(shards[k]) == Count(shards) + SumSizes(x)
    decreases |shards|
  {
    var last := |shards| - 1;
    var init := shards[..last];
    assert shards == init + [shards[last]];
    if k == last {
      assert shards[k := x] == init + [x];
      assert (init + [x])[..last] == init;
    } else {
      assert shards[k := x] == init[k := x] + [shards[last]];
      assert (init[k := x] + [shards[last]])[..last] == init[k := x];
      CountUpdate(init, k, x);
    }
  }

  /** The number of stored bytes is the size of the multiset of stored bytes. */
  lemma {:induction false} CountIsBagSize(shards: seq<seq<seq<byte>>>)
    ensures |Bag(shards)| == Count(shards)
    decreases |shards|
  {
    if shards != [] {
      CountIsBagSize(shards[..|shards| - 1]);
    }
  }

  /**
   * The number of bytes round-robin placement leaves in segment `i` of `n`
   * after `total` appends: an equal share, plus one for the segments the
   * next turn has already reached.
   */
  function Share(total: nat, n: nat, i: nat): nat
    requires n > 0
  {
    total / n + (if i < total % n then 1 else 0)
  }

  /** Quotient and remainder are the only pair that rebuilds the dividend. */
  lemma DivModUnique(a: nat, n: nat, q: nat, r: nat)
    requires n > 0 && r < n && a == q * n + r
    ensures a / n == q && a % n == r
  {
    var q0, r0 := a / n, a % n;
    assert a == q0 * n + r0;
    if q0 < q {
      Redistribution.MulIsMonotone(n, q0 + 1, q);
    } else if q < q0 {
      Redistribution.MulIsMonotone(n, q + 1, q0);
    }
  }

  /** One more append raises exactly the share of segment `total % n`, by one. */
  lemma ShareStep(total: nat, n: nat, i: nat)
    requires n > 0 && i < n
    ensures Share(total + 1, n, i) == Share(total, n, i) + (if i == total % n then 1 else 0)
  {
    var q, r := total / n, total % n;
    if r + 1 < n {
      DivModUnique(total + 1, n, q, r + 1);
    } else {
      DivModUnique(total + 1, n, q + 1, 0);
    }
  }

  /** Round-robin placement keeps any two segments within one byte of each other. */
  lemma SharesDifferByAtMostOne(total: nat, n: nat, i: nat, j: nat)
    requires n > 0 && i < n && j < n
    ensures Share(total, n, i) <= Share(total, n, j) + 1
    ensures i <= j ==> Share(total, n, j) <= Share(total, n, i)
  {
  }

  /** The number of bytes in each segment, in segment order. */
  function Sizes(shards: seq<seq<seq<byte>>>): (r: seq<nat>)
    ensures |r| == |shards|
  {
    seq(|shards|, i requires 0 <= i < |shards| => SumSizes(shards[i]))
  }

  /** The round-robin share of each of `n` segments after `total` appends. */
  function Shares(total: nat, n: nat): (r: seq<nat>)
    requires n > 0
    ensures |r| == n
  {
    seq(n, i requires 0 <= i < n => Share(total, n, i))
  }

  /** Each segment holds exactly its round-robin share of the `total` bytes. */
  ghost predicate Balanced(shards: seq<seq<seq<byte>>>, total: nat)
  {
    |shards| > 0 && Sizes(shards) == Shares(total, |shards|)
  }

  /** The total counts every stored byte and the segments hold their shares of it. */
  ghost predicate Accounted(shards: seq<seq<seq<byte>>>, total: nat)
  {
    total == Count(shards) && Balanced(shards, total)
  }

  /**
   * A put of `elem` into the segment the total selects adds exactly that byte to
   * the whole, one to the count, and keeps every segment at its share.
   */
  lemma PutInShard(shards: seq<seq<seq<byte>>>, total: nat, k: nat, x: seq<seq<byte>>, elem: byte)
    requires Accounted(shards, total) && k == total % |shards|
    requires multiset(Flatten(x)) == multiset(Flatten(shards[k])) + multiset{elem}
    ensures Bag(shards[k := x]) == Bag(shards) + multiset{elem}
    ensures Count(shards[k := x]) == Count(shards) + 1
    ensures Accounted(shards[k := x], total + 1)
  {
    var after := shards[k := x];
    assert SumSizes(x) == |multiset(Flatten(x))| == SumSizes(shards[k]) + 1;
    BagUpdate(shards, k, x);
    MultisetCancel(Bag(after), Bag(shards) + multiset{elem}, multiset(Flatten(shards[k])));
    CountUpdate(shards, k, x);
    forall i | 0 <= i < |after|
      ensures Sizes(after)[i] == Shares(total + 1, |after|)[i]
    {
      ShareStep(total, |shards|, i);
      assert Sizes(shards)[i] == Shares(total, |shards|)[i];
    }
  }

  /** Segments that are all empty hold nothing together, and their share of nothing. */
  lemma {:induction false} EmptyShards(shards: seq<seq<seq<byte>>>)
    requires forall i :: 0 <= i < |shards| ==> SumSizes(shards[i]) == 0
    ensures Count(shards) == 0 && Bag(shards) == multiset{}
    ensures |shards| > 0 ==> Balanced(shards, 0)
    decreases |shards|
  {
    if shards != [] {
      EmptyShards(shards[..|shards| - 1]);
      assert Sizes(shards) == Shares(0, |shards|);
    }
  }

  /** The bytes of a prefix one longer are those of the prefix and the next byte. */
  lemma PrefixBag(s: seq<byte>, i: nat)
    requires i < |s|
    ensures multiset(s[..i + 1]) == multiset(s[..i]) + multiset{s[i]}
  {
    assert s[..i + 1] == s[..i] + [s[i]];
  }

  /** `after` is `before` with `elem` added to segment `k` and every other segment unchanged. */
  ghost predicate PutAt(before: seq<seq<seq<byte>>>, after: seq<seq<seq<byte>>>, k: nat, elem: byte)
  {
    && |after| == |before| && k < |before|
    && multiset(Flatten(after[k])) == multiset(Flatten(before[k])) + multiset{elem}
    && forall i :: 0 <= i < |after| && i != k ==> after[i] == before[i]
  }

  /**
   * The bytes of `elems` that appending them one by one, starting at running
   * total `total`, sends to segment `k` of `n`: byte `j` goes to segment
   * (total + j) % n.
   */
  function Dealt(elems: seq<byte>, total: nat, n: nat, k: nat): multiset<byte>
    requires n > 0
  {
    if elems == [] then multiset{}
    else
      var last := |elems| - 1;
      Dealt(elems[..last], total, n, k) + if (total + last) % n == k then multiset{elems[last]} else multiset{}
  }

  /** Each segment of `after` holds what it held in `before` plus the bytes of `elems` dealt to it. */
  ghost predicate Dealing(before: seq<seq<seq<byte>>>, after: seq<seq<seq<byte>>>, elems: seq<byte>, total: nat)
  {
    && |after| == |before| > 0
    && forall k {:trigger Dealt(elems, total, |before|, k)} :: 0 <= k < |before| ==>
         multiset(Flatten(after[k])) == multiset(Flatten(before[k])) + Dealt(elems, total, |before|, k)
  }

  /** Dealing one more byte adds it to the segment the running total selects, and to no other. */
  lemma DealtNext(elems: seq<byte>, total: nat, n: nat, k: nat, i: nat)
    requires n > 0 && i < |elems|
    ensures Dealt(elems[..i + 1], total, n, k)
         == Dealt(elems[..i], total, n, k) + if (total + i) % n == k then multiset{elems[i]} else multiset{}
  {
    var s := elems[..i + 1];
    assert s[..i] == elems[..i] && s[i] == elems[i];
  }

  /** Appending byte `i` to the segment the running total selects extends the dealing by that byte. */
  lemma DealingStep(before: seq<seq<seq<byte>>>, mid: seq<seq<seq<byte>>>, after: seq<seq<seq<byte>>>,
                    elems: seq<byte>, total: nat, i: nat, q: nat)
    requires i < |elems| && Dealing(before, mid, elems[..i], total)
    requires q == (total + i) % |before| && PutAt(mid, after, q, elems[i])
    ensures Dealing(before, after, elems[..i + 1], total)
  {
    var n := |before|;
    forall k | 0 <= k < n
      ensures multiset(Flatten(after[k])) == multiset(Flatten(before[k])) + Dealt(elems[..i + 1], total, n, k)
    {
      DealtNext(elems, total, n, k, i);
      if k == q {
        assert multiset(Flatten(after[k])) == multiset(Flatten(mid[k])) + multiset{elems[i]};
      } else {
        assert after[k] == mid[k];
      }
    }
  }

  /** The state after appending `elems` one by one to `before` (holding `bag0`, total `total0`). */
  ghost predicate Appended(before: seq<seq<seq<byte>>>, bag0: multiset<byte>, total0: nat, elems: seq<byte>,
                           after: seq<seq<seq<byte>>>, total: nat)
  {
    && total == total0 + |elems|
    && Bag(after) == bag0 + multiset(elems)
    && Dealing(before, after, elems, total0)
  }

  /** Every segment has at least one bucket. */
  ghost predicate Shaped(shards: seq<seq<seq<byte>>>)
  {
    |shards| > 0 && forall i :: 0 <= i < |shards| ==> |shards[i]| > 0
  }

  /**
   * What Get reads, as written: the index is checked against the total, but the
   * segment is the one the total selects (the one the next append goes to), and
   * inside it the unreduced index selects both the bucket and the position.
   */
  function Lookup(shards: seq<seq<seq<byte>>>, total: nat, index: int): Option<byte>
    requires Shaped(shards)
  {
    if index < 0 || index >= total then None
    else
      var c := shards[total % |shards|];
      var b := c[index % |c|];
      if index < |b| then Some(b[index]) else None
  }

  /** What Set writes, as written: the position Lookup reads, when there is one. */
  function Store(shards: seq<seq<seq<byte>>>, total: nat, index: int, value: byte): Option<seq<seq<seq<byte>>>>
    requires Shaped(shards)
  {
    if index < 0 || index >= total then None
    else
      var k := total % |shards|;
      var c := shards[k];
      var j := index % |c|;
      var b := c[j];
      if index < |b| then Some(shards[k := c[j := b[index := value]]]) else None
  }

  /**
   * Set succeeds exactly where Get does; afterwards Get at that index returns the
   * new byte and Get at every other index returns what it returned before.
   */
  lemma StoreThenLookup(shards: seq<seq<seq<byte>>>, total: nat, index: int, value: byte)
    requires Shaped(shards)
    ensures Store(shards, total, index, value).Some? <==> Lookup(shards, total, index).Some?
    ensures Store(shards, total, index, value).Some? ==>
      var after := Store(shards, total, index, value).value;
      && Shaped(after)
      && Lookup(after, total, index) == Some(value)
      && (forall i :: i != index ==> Lookup(after, total, i) == Lookup(shards, total, i))
  {
    if Store(shards, total, index, value).Some? {
      var after := Store(shards, total, index, value).value;
      var k := total % |shards|;
      assert after[k] == shards[k][index % |shards[k]| := shards[k][index % |shards[k]|][index := value]];
      forall i | i != index
        ensures Lookup(after, total, i) == Lookup(shards, total, i)
      {
        if 0 <= i < total {
          var j := i % |shards[k]|;
          assert |after[k][j]| == |shards[k][j]|;
        }
      }
    }
  }

  /** Set changes no segment's size, so it keeps the number of stored bytes. */
  lemma StoreKeepsCount(shards: seq<seq<seq<byte>>>, total: nat, index: int, value: byte)
    requires Shaped(shards) && Store(shards, total, index, value).Some?
    ensures Count(Store(shards, total, index, value).value) == Count(shards)
    ensures Accounted(shards, total) ==> Accounted(Store(shards, total, index, value).value, total)
  {
    var k := total % |shards|;
    var c := shards[k];
    var j := index % |c|;
    var x: seq<seq<byte>> := c[j := c[j][index := value]];
    var after := shards[k := x];
    assert Store(shards, total, index, value).value == after;
    FlattenUpdate(c, j, x[j]);
    CountUpdate(shards, k, x);
    assert Sizes(after) == Sizes(shards);
  }

  class ConcurrentBytes {
    const concurrency: int
    var segments: seq<Segment>
    var total: nat
    /** The abstract value: the contents of each segment, in segment order. */
    ghost var shards: seq<seq<seq<byte>>>
    /** The container, every segment and everything each segment owns. */
    ghost var Repr: set<object>

    /**
     * Every segment is valid and owns its objects alone, `total` counts the
     * bytes they hold together, and round-robin appends keep each segment at
     * its share of that total.
     */
    ghost predicate Valid()
      reads this, Repr
    {
      this in Repr
      && 0 < concurrency <= MaxConcurrency
      && |segments| == concurrency && |shards| == concurrency
      && (forall i :: 0 <= i < |segments| ==>
            segments[i] in Repr && segments[i].Repr <= Repr && this !in segments[i].Repr
            && segments[i].Valid() && segments[i].contents == shards[i])
      && (forall i, j :: 0 <= i < j < |segments| ==> segments[i].Repr !! segments[j].Repr)
      && Accounted(shards, total)
    }

    /**
     * Every segment other than `k` is as Valid() describes it and shares no
     * object with `owned`: what an operation on segment `k` leaves behind.
     */
    ghost predicate Intact(k: nat, owned: set<object>)
      reads this, Repr
    {
      this in Repr
      && 0 < concurrency <= MaxConcurrency
      && |segments| == concurrency && |shards| == concurrency && k < concurrency
      && (forall i :: 0 <= i < |segments| && i != k ==>
            segments[i] in Repr && segments[i].Repr <= Repr && this !in segments[i].Repr
            && segments[i].Valid() && segments[i].contents == shards[i] && segments[i].Repr !! owned)
      && (forall i, j :: 0 <= i < j < |segments| && i != k && j != k ==> segments[i].Repr !! segments[j].Repr)
    }

    /** Under Valid(), every segment has a bucket, so Lookup and Store apply. */
    lemma ValidIsShaped()
      requires Valid()
      ensures Shaped(shards)
    {
      forall i | 0 <= i < |shards|
        ensures |shards[i]| > 0
      {
        assert segments[i].Valid();
      }
    }

    /**
     * The body of NewConcurrentBytes once the concurrency is accepted: that
     * many segments of the default bucket count, each with its own default policy.
     */
    constructor (concurrency: int)
      requires 0 < concurrency <= MaxConcurrency
      ensures Valid() && fresh(Repr)
      ensures this.concurrency == concurrency && total == 0
      ensures Bag(shards) == multiset{}
      ensures forall i :: 0 <= i < |shards| ==> |shards[i]| == DefaultBucketNumber
      ensures forall i, j :: 0 <= i < |shards| && 0 <= j < |shards[i]| ==> shards[i][j] == []
      ensures forall i :: 0 <= i < |segments| ==> segments[i].PolicyState() == Redistribution.DefaultPolicy
    {
      var ss, sh, owned := NewSegments(concurrency);
      this.concurrency := concurrency;
      segments, total, shards := ss, 0, sh;
      Repr := {this} + owned;
    }

    /** The number of segments, fixed at construction. */
    method Concurrecy() returns (n: int)
      requires Valid()
      ensures n == concurrency == |shards| && 0 < n <= MaxConcurrency
    {
      return concurrency;
    }

    /**
     * Appends to segment `total % concurrency`, then counts the byte. The
     * segment's Put never fails, so neither does this.
     */
    method Append(elem: byte) returns (ok: bool, err: Option<Error>)
      requires Valid()
      modifies Repr
      ensures Valid() && fresh(Repr - old(Repr))
      ensures ok && err == None && total == old(total) + 1
      ensures Bag(shards) == old(Bag(shards)) + multiset{elem}
      ensures PutAt(old(shards), shards, old(total % concurrency), elem)
      ensures segments == old(segments)
      ensures var k := old(total % concurrency);
        PutStep(old(shards)[k], old(segments[k].PolicyState()), elem, shards[k], segments[k].PolicyState())
      ensures forall i :: 0 <= i < concurrency && i != old(total % concurrency) ==>
        segments[i].PolicyState() == old(segments[i].PolicyState())
    {
      var k := total % concurrency;
      ok, err := AppendAt(k, elem);
    }

    /** Append once the segment is chosen (cbytes.go:59-61): segment `k` takes the byte, then the total grows. */
    method AppendAt(k: nat, elem: byte) returns (ok: bool, err: Option<Error>)
      requires Valid() && k == total % concurrency
      modifies Repr
      ensures Valid() && fresh(Repr - old(Repr))
      ensures ok && err == None && total == old(total) + 1
      ensures Bag(shards) == old(Bag(shards)) + multiset{elem}
      ensures PutAt(old(shards), shards, k, elem)
      ensures segments == old(segments)
      ensures PutStep(old(shards)[k], old(segments[k].PolicyState()), elem, shards[k], segments[k].PolicyState())
      ensures forall i :: 0 <= i < concurrency && i != k ==> segments[i].PolicyState() == old(segments[i].PolicyState())
    {
      ok, err := PutSegment(k, elem);
      ghost var x, p := segments[k].contents, segments[k].PolicyState();
      if ok {
        CommitAppend(k, segments[k].contents, segments[k].Repr, elem);
      }
      assert segments[k].PolicyState() == p && shards[k] == x;
    }

    /**
     * The put itself (cbytes.go:58-59): segment `k` takes the byte, and no
     * other segment is touched.
     */
    method PutSegment(k: nat, elem: byte) returns (ok: bool, err: Option<Error>)
      requires Valid() && k == total % concurrency
      modifies segments[k].Repr
      ensures ok && err == None
      ensures segments[k].Valid() && segments[k] in segments[k].Repr && this !in segments[k].Repr
      ensures fresh(segments[k].Repr - old(segments[k].Repr))
      ensures multiset(Flatten(segments[k].contents)) == multiset(Flatten(shards[k])) + multiset{elem}
      ensures PutStep(old(segments[k].contents), old(segments[k].PolicyState()), elem, segments[k].contents, segments[k].PolicyState())
      ensures Intact(k, segments[k].Repr)
      ensures forall i :: 0 <= i < concurrency && i != k ==> segments[i].PolicyState() == old(segments[i].PolicyState())
    {
      var s := segments[k];
      label Before:
      ok, err := s.Put(elem);
      assert forall i :: 0 <= i < |segments| && i != k ==> segments[i].Repr == old@Before(segments[i].Repr);
    }

    /**
     * The bookkeeping after segment `k` has changed: it now holds `x` and owns
     * `owned`, the total becomes `t`, and the other segments are untouched.
     */
    method Commit(k: nat, ghost x: seq<seq<byte>>, ghost owned: set<object>, t: nat)
      requires Intact(k, owned)
      requires segments[k].Valid() && segments[k].contents == x && segments[k].Repr == owned
      requires segments[k] in owned && this !in owned
      requires Accounted(shards[k := x], t)
      modifies this
      ensures Valid() && Repr == old(Repr) + owned
      ensures total == t && shards == old(shards)[k := x] && segments == old(segments)
      ensures forall i :: 0 <= i < concurrency ==> segments[i].PolicyState() == old(segments[i].PolicyState())
    {
      total, shards, Repr := t, shards[k := x], Repr + owned;
    }

    /**
     * The bookkeeping of Append (cbytes.go:60-61) once segment `k` holds the
     * new byte: the total grows by one, and the segments keep their shares.
     */
    method CommitAppend(k: nat, ghost x: seq<seq<byte>>, ghost owned: set<object>, ghost elem: byte)
      requires Intact(k, owned) && k == total % concurrency
      requires segments[k].Valid() && segments[k].contents == x && segments[k].Repr == owned
      requires segments[k] in owned && this !in owned
      requires Accounted(shards, total)
      requires multiset(Flatten(x)) == multiset(Flatten(shards[k])) + multiset{elem}
      modifies this
      ensures Valid() && Repr == old(Repr) + owned
      ensures total == old(total) + 1 && shards == old(shards)[k := x] && segments == old(segments)
      ensures segments[k].PolicyState() == old(segments[k].PolicyState())
      ensures forall i :: 0 <= i < concurrency ==> segments[i].PolicyState() == old(segments[i].PolicyState())
      ensures Bag(shards) == old(Bag(shards)) + multiset{elem}
    {
      PutInShard(shards, total, k, x, elem);
      Commit(k, x, owned, total + 1);
    }

    /**
     * Appends each byte in turn, as Append does, counting the successes. The
     * source returns early on a segment error; a segment's Put never fails, so
     * that exit is never taken and every byte is appended.
     */
    method Appends(elems: seq<byte>) returns (count: int, err: Option<Error>)
      requires Valid()
      modifies Repr
      ensures Valid() && fresh(Repr - old(Repr))
      ensures count == |elems| && err == None
      ensures total == old(total) + |elems|
      ensures Bag(shards) == old(Bag(shards)) + multiset(elems)
      ensures Dealing(old(shards), shards, elems, old(total))
      ensures |elems| == 0 ==> shards == old(shards)
      ensures segments == old(segments)
    {
      count := 0;
      ghost var bag0, total0, shards0 := Bag(shards), total, shards;
      for i := 0 to |elems|
        invariant Valid() && fresh(Repr - old(Repr))
        invariant count == i
        invariant Appended(shards0, bag0, total0, elems[..i], shards, total)
        invariant i == 0 ==> shards == shards0
        invariant segments == old(segments)
      {
        var ok := AppendNext(elems, i, bag0, total0, shards0);
        if ok {
          count := count + 1;
        }
      }
      assert elems[..|elems|] == elems;
      err := None;
    }

    /** One iteration of Appends (cbytes.go:70-78), which puts `elems[i]` exactly as Append does and extends the running totals. */
    method AppendNext(elems: seq<byte>, i: nat, ghost bag0: multiset<byte>, ghost total0: nat,
                      ghost shards0: seq<seq<seq<byte>>>) returns (ok: bool)
      requires Valid() && i < |elems|
      requires Appended(shards0, bag0, total0, elems[..i], shards, total)
      modifies Repr
      ensures Valid() && fresh(Repr - old(Repr))
      ensures ok && Appended(shards0, bag0, total0, elems[..i + 1], shards, total)
      ensures segments == old(segments)
    {
      ghost var mid, q := shards, (total0 + i) % |shards0|;
      assert |shards0| == concurrency && q == total % concurrency;
      var e;
      ok, e := Append(elems[i]);
      PrefixBag(elems, i);
      DealingStep(shards0, mid, shards, elems, total0, i, q);
    }

    /**
     * Get as written: rejects an index outside 0..total-1, then reads segment
     * `total % concurrency` (not the segment the index's byte went to) with
     * the unreduced index.
     */
    method Get(index: int) returns (v: byte, err: Option<Error>)
      requires Valid()
      ensures Shaped(shards)
      ensures err == None <==> Lookup(shards, total, index).Some?
      ensures err == None ==> Lookup(shards, total, index) == Some(v)
      ensures err != None ==> err == Some(InvalidIndex) && v == 0
    {
      ValidIsShaped();
      if index < 0 || index > total - 1 {
        return 0, Some(InvalidIndex);
      }
      var s := segments[total % concurrency];
      v, err := s.Get(index);
    }

    /**
     * Set as written: the same check and the same segment as Get; on success
     * only the position Get would read changes.
     */
    method Set(index: int, value: byte) returns (ok: bool, err: Option<Error>)
      requires Valid()
      modifies Repr
      ensures Valid() && Repr == old(Repr) && total == old(total)
      ensures Shaped(old(shards))
      ensures var r := Store(old(shards), old(total), index, value);
        && (ok <==> r.Some?)
        && (ok ==> err == None && shards == r.value)
        && (!ok ==> err == Some(InvalidIndex) && shards == old(shards))
      ensures segments == old(segments)
      ensures forall i :: 0 <= i < concurrency ==> segments[i].PolicyState() == old(segments[i].PolicyState())
    {
      ValidIsShaped();
      if index < 0 || index > total - 1 {
        return false, Some(InvalidIndex);
      }
      var k := total % concurrency;
      ok, err := SetSegment(k, index, value);
      Commit(k, segments[k].contents, segments[k].Repr, total);
    }

    /**
     * The write itself (cbytes.go:97-98): segment `k` writes through its
     * bucket `index % bucketsLen`, and no other segment is touched.
     */
    method SetSegment(k: nat, index: int, value: byte) returns (ok: bool, err: Option<Error>)
      requires Valid() && k == total % concurrency && 0 <= index < total
      modifies segments[k].Repr
      ensures Shaped(shards)
      ensures segments[k].Valid() && segments[k] in segments[k].Repr && this !in segments[k].Repr
      ensures segments[k].Repr == old(segments[k].Repr)
      ensures var r := Store(shards, total, index, value);
        && (ok <==> r.Some?)
        && (ok ==> err == None && shards[k := segments[k].contents] == r.value)
        && (!ok ==> err == Some(InvalidIndex) && shards[k := segments[k].contents] == shards)
      ensures var after := shards[k := segments[k].contents];
        Accounted(after, total)
      ensures Intact(k, segments[k].Repr)
      ensures segments[k].PolicyState() == old(segments[k].PolicyState())
    {
      ValidIsShaped();
      var s := segments[k];
      ghost var p := s.PolicyState();
      ok, err := s.Set(index, value);
      assert s.PolicyState() == p;
      if ok {
        StoreKeepsCount(shards, total, index, value);
      }
    }

    /** The total, which is the number of bytes all segments hold together. */
    method Len() returns (n: nat)
      requires Valid()
      ensures n == Count(shards) == |Bag(shards)|
    {
      CountIsBagSize(shards);
      return total;
    }
  }

  /**
   * The segment array of NewConcurrentBytes (cbytes.go:41-44): `n` new segments
   * of the default bucket count, filled in index order, each empty and owning
   * its own objects.
   */
  method NewSegments(n: nat) returns (ss: seq<Segment>, ghost sh: seq<seq<seq<byte>>>, ghost owned: set<object>)
    ensures |ss| == n && |sh| == n
    ensures forall k :: 0 <= k < n ==>
      ss[k] in ss[k].Repr && ss[k].Repr <= owned && ss[k].Valid() && ss[k].contents == sh[k]
      && |sh[k]| == DefaultBucketNumber && ss[k].PolicyState() == Redistribution.DefaultPolicy
    ensures forall k, j :: 0 <= k < n && 0 <= j < |sh[k]| ==> sh[k][j] == []
    ensures forall k, l :: 0 <= k < l < n ==> ss[k].Repr !! ss[l].Repr
    ensures fresh(owned)
    ensures Count(sh) == 0 && Bag(sh) == multiset{} && (n > 0 ==> Balanced(sh, 0))
  {
    ghost var reprs: seq<set<object>>;
    ss, sh, reprs, owned := [], [], [], {};
    for i := 0 to n
      invariant |ss| == i && |sh| == i && |reprs| == i
      invariant forall k :: 0 <= k < i ==>
        ss[k] in reprs[k] && ss[k].Repr == reprs[k] && reprs[k] <= owned
        && ss[k].Valid() && ss[k].contents == sh[k]
        && |sh[k]| == DefaultBucketNumber && SumSizes(sh[k]) == 0 && ss[k].PolicyState() == Redistribution.DefaultPolicy
        && (forall j :: 0 <= j < |sh[k]| ==> sh[k][j] == [])
      invariant forall k, l :: 0 <= k < l < i ==> reprs[k] !! reprs[l]
      invariant fresh(owned)
    {
      var s := new Segment(DefaultBucketNumber);
      ss, sh, reprs, owned := ss + [s], sh + [s.contents], reprs + [s.Repr], owned + s.Repr;
    }
    EmptyShards(sh);
    assert forall k, l :: 0 <= k < l < n ==> ss[k].Repr !! ss[l].Repr;
  }

  /**
   * NewConcurrentBytes: a concurrency outside 1..MaxConcurrency is refused
   * with InvalidConcurrency; otherwise an empty container of that many segments.
   */
  method NewConcurrentBytes(concurrency: int) returns (cb: ConcurrentBytes?, err: Option<Error>)
    ensures err == None <==> 0 < concurrency <= MaxConcurrency
    ensures err != None ==> err == Some(InvalidConcurrency) && cb == null
    ensures err == None ==>
      cb != null && fresh(cb.Repr) && cb.Valid()
      && cb.concurrency == concurrency && cb.total == 0 && Bag(cb.shards) == multiset{}
      && (forall i, j :: 0 <= i < |cb.shards| && 0 <= j < |cb.shards[i]| ==> cb.shards[i][j] == [])
      && (forall i :: 0 <= i < |cb.segments| ==> cb.segments[i].PolicyState() == Redistribution.DefaultPolicy)
  {
    if concurrency <= 0 || concurrency > MaxConcurrency {
      return null, Some(InvalidConcurrency);
    }
    cb := new ConcurrentBytes(concurrency);
    err := None;
  }

  /**
   * Get after two appends into two segments, as written: it reads segment
   * `2 % 2 == 0`, whose bucket 0 holds the first byte and whose bucket 1 is empty.
   */
  lemma ReadBackAfterTwo(shards: seq<seq<seq<byte>>>, a: byte)
    requires Shaped(shards) && |shards| == 2 && |shards[0]| == DefaultBucketNumber
    requires shards[0][0] == [a] && shards[0][1] == []
    ensures Lookup(shards, 2, 0) == Some(a) && Lookup(shards, 2, 1) == None
  {
  }

  /**
   * An append whose turn falls on a segment that is still as a new container
   * left it (empty default buckets, default policy): the byte lands alone in
   * that segment's bucket 0 and nothing else changes but the total.
   */
  method AppendToUntouched(cb: ConcurrentBytes, elem: byte)
    requires cb.Valid()
    requires var k := cb.total % cb.concurrency;
      && |cb.shards[k]| == DefaultBucketNumber && (forall j :: 0 <= j < |cb.shards[k]| ==> cb.shards[k][j] == [])
      && cb.segments[k].PolicyState() == Redistribution.DefaultPolicy
    modifies cb.Repr
    ensures cb.Valid() && fresh(cb.Repr - old(cb.Repr))
    ensures cb.total == old(cb.total) + 1 && cb.segments == old(cb.segments)
    ensures var k := old(cb.total % cb.concurrency);
      cb.shards == old(cb.shards)[k := old(cb.shards)[k][0 := [elem]]]
    ensures forall i :: 0 <= i < cb.concurrency && i != old(cb.total % cb.concurrency) ==>
      cb.segments[i].PolicyState() == old(cb.segments[i].PolicyState())
  {
    ghost var k := cb.total % cb.concurrency;
    ghost var before := cb.shards;
    var ok, e := cb.Append(elem);
    FirstPutStep(before[k], elem, cb.shards[k], cb.segments[k].PolicyState());
    assert cb.shards == before[k := before[k][0 := [elem]]];
  }

  /**
   * Two appends into a new two-segment container, then Get at both indexes.
   * Each byte lands alone in bucket 0 of its segment. Get(0) reads the first
   * byte back. Get(1) is refused although 1 < Len(): it looks in segment
   * `total % 2 == 0`, bucket 1, which is empty.
   */
  method TwoAppendsThenGet(a: byte, b: byte) returns (v0: byte, e0: Option<Error>, v1: byte, e1: Option<Error>)
    ensures e0 == None && v0 == a
    ensures e1 == Some(InvalidIndex) && v1 == 0
  {
    var cb := new ConcurrentBytes(2);
    AppendToUntouched(cb, a);
    AppendToUntouched(cb, b);
    ReadBackAfterTwo(cb.shards, a);
    v0, e0 := cb.Get(0);
    v1, e1 := cb.Get(1);
  }
}
