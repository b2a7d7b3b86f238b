/**
 * The abstract view of a bucket array (one byte sequence per bucket) and the two
 * operations a resize performs on it: draining every bucket into one sequence,
 * and routing each drained byte to the bucket its value selects.
 */
module Layout {
  import opened Common

  /** Sum of the bucket sizes. */
  function SumSizes(c: seq<seq<byte>>): nat
  {
    if c == [] then 0 else SumSizes(c[..|c| - 1]) + |c[|c| - 1]|
  }

  /** Drain order: the buckets one after another, each in its own order. */
  function Flatten(c: seq<seq<byte>>): (s: seq<byte>)
    ensures |s| == SumSizes(c)
  {
    if c == [] then [] else Flatten(c[..|c| - 1]) + c[|c| - 1]
  }

  /** The bytes of `s` whose value selects bucket `j` of `n`, in their order in `s`. */
  function Route(s: seq<byte>, n: nat, j: nat): (r: seq<byte>)
    requires n > 0
    ensures |r| <= |s|
    ensures forall v :: v in r ==> v % n == j
  {
    if s == [] then []
    else Route(s[..|s| - 1], n, j) + (if s[|s| - 1] % n == j then [s[|s| - 1]] else [])
  }

  /** The bucket array a resize to `n` buckets builds from the drained bytes `s`. */
  function Rehash(s: seq<byte>, n: nat): (c: seq<seq<byte>>)
    requires n > 0
    ensures |c| == n
  {
    seq(n, j requires 0 <= j < n => Route(s, n, j))
  }

  /** Replacing one bucket changes the stored bytes by exactly the difference. */
  lemma {:induction false} FlattenUpdate(c: seq<seq<byte>>, j: nat, x: seq<byte>)
    requires j < |c|
    ensures multiset(Flatten(c[j := x])) + multiset(c[j]) == multiset(Flatten(c)) + multiset(x)
    ensures SumSizes(c[j := x]) + |c[j]| == SumSizes(c) + |x|
    decreases |c|
  {
    var last := |c| - 1;
    var init := c[..last];
    assert c == init + [c[last]];
    if j == last {
      assert c[j := x] == init + [x];
    } else {
      assert c[j := x] == init[j := x] + [c[last]];
      FlattenUpdate(init, j, x);
      var a, b := Flatten(init[j := x]), Flatten(init);
      assert multiset(a) + multiset(c[j]) == multiset(b) + multiset(x);
      assert Flatten(c[j := x]) == a + c[last];
      assert Flatten(c) == b + c[last];
      calc {
        multiset(Flatten(c[j := x])) + multiset(c[j]);
        multiset(a) + multiset(c[last]) + multiset(c[j]);
        multiset(b) + multiset(x) + multiset(c[last]);
        multiset(Flatten(c)) + multiset(x);
      }
    }
  }

  /** Appending a byte to one bucket adds exactly that byte to the stored bytes. */
  lemma AppendToBucket(c: seq<seq<byte>>, k: nat, elem: byte)
    requires k < |c|
    ensures multiset(Flatten(c[k := c[k] + [elem]])) == multiset(Flatten(c)) + multiset{elem}
    ensures SumSizes(c[k := c[k] + [elem]]) == SumSizes(c) + 1
  {
    FlattenUpdate(c, k, c[k] + [elem]);
    MultisetCancel(multiset(Flatten(c[k := c[k] + [elem]])), multiset(Flatten(c)) + multiset{elem}, multiset(c[k]));
  }

  /** Removing position `index` of one bucket removes exactly that byte from the stored bytes. */
  lemma RemoveFromBucket(c: seq<seq<byte>>, k: nat, index: nat)
    requires k < |c| && index < |c[k]|
    ensures var rest := c[k][..index] + c[k][index + 1..];
      && multiset(Flatten(c[k := rest])) + multiset{c[k][index]} == multiset(Flatten(c))
      && SumSizes(c[k := rest]) + 1 == SumSizes(c)
  {
    var rest := c[k][..index] + c[k][index + 1..];
    assert c[k] == c[k][..index] + [c[k][index]] + c[k][index + 1..];
    assert multiset(c[k]) == multiset(rest) + multiset{c[k][index]};
    FlattenUpdate(c, k, rest);
    MultisetCancel(multiset(Flatten(c[k := rest])) + multiset{c[k][index]}, multiset(Flatten(c)), multiset(rest));
  }

  /** A bucket array of empty buckets holds nothing. */
  lemma {:induction false} FlattenEmpty(c: seq<seq<byte>>)
    requires forall i :: 0 <= i < |c| ==> c[i] == []
    ensures Flatten(c) == []
    decreases |c|
  {
    if c != [] {
      FlattenEmpty(c[..|c| - 1]);
    }
  }

  /** Routing one more byte appends it to the bucket its value selects, and only there. */
  lemma RehashSnoc(s: seq<byte>, v: byte, n: nat)
    requires n > 0
    ensures Rehash(s + [v], n) == Rehash(s, n)[v % n := Rehash(s, n)[v % n] + [v]]
  {
    assert (s + [v])[..|s|] == s;
    var after, before := Rehash(s + [v], n), Rehash(s, n);
    forall k | 0 <= k < n
      ensures after[k] == before[v % n := before[v % n] + [v]][k]
    {
      assert after[k] == Route(s, n, k) + (if v % n == k then [v] else []);
    }
  }

  /** Rehashing nothing gives empty buckets. */
  lemma RehashNothing(n: nat)
    requires n > 0
    ensures Flatten(Rehash([], n)) == []
  {
    var c := Rehash([], n);
    assert forall i :: 0 <= i < |c| ==> c[i] == Route([], n, i);
    FlattenEmpty(c);
  }

  /** Adding the same bytes to two multisets keeps them equal only if they were equal. */
  lemma MultisetCancel(x: multiset<byte>, y: multiset<byte>, a: multiset<byte>)
    requires x + a == y + a
    ensures x == y
  {
    forall o ensures x[o] == y[o] {
      assert (x + a)[o] == (y + a)[o];
    }
  }

  /** A resize loses no byte and duplicates none. */
  lemma {:induction false} RehashPreservesBytes(s: seq<byte>, n: nat)
    requires n > 0
    ensures multiset(Flatten(Rehash(s, n))) == multiset(s)
    ensures SumSizes(Rehash(s, n)) == |s|
    decreases |s|
  {
    if s == [] {
      RehashNothing(n);
    } else {
      var init: seq<byte>, v: byte := s[..|s| - 1], s[|s| - 1];
      assert s == init + [v];
      var before := Rehash(init, n);
      var k := v % n;
      RehashPreservesBytes(init, n);
      RehashSnoc(init, v, n);
      FlattenUpdate(before, k, before[k] + [v]);
      var after := before[k := before[k] + [v]];
      assert multiset(before[k] + [v]) == multiset(before[k]) + multiset{v};
      MultisetCancel(multiset(Flatten(after)), multiset(Flatten(before)) + multiset{v}, multiset(before[k]));
    }
  }

  /** Bucket `j` after a resize holds every copy of each value that selects `j`, and no other value. */
  lemma {:induction false} RouteCount(s: seq<byte>, n: nat, j: nat, v: byte)
    requires n > 0
    ensures multiset(Route(s, n, j))[v] == if v % n == j then multiset(s)[v] else 0
    decreases |s|
  {
    if s != [] {
      var init := s[..|s| - 1];
      assert s == init + [s[|s| - 1]];
      RouteCount(init, n, j, v);
    }
  }

  /** Routing keeps drain order: the bytes drained earlier come first in each new bucket. */
  lemma {:induction false} RouteAppend(a: seq<byte>, b: seq<byte>, n: nat, j: nat)
    requires n > 0
    ensures Route(a + b, n, j) == Route(a, n, j) + Route(b, n, j)
    decreases |b|
  {
    if b == [] {
      assert a + b == a;
    } else {
      var init := b[..|b| - 1];
      assert a + b == (a + init) + [b[|b| - 1]];
      assert (a + b)[..|a + b| - 1] == a + init;
      RouteAppend(a, init, n, j);
    }
  }

  /**
   * What a segment's bucket array may become after one policy step: unchanged,
   * or doubled, or (from at least 100 buckets) halved, with every stored byte
   * re-routed by its value.
   */
  ghost predicate Rebalanced(before: seq<seq<byte>>, after: seq<seq<byte>>)
  {
    after == before
    || (|after| > 0
        && (|after| == 2 * |before| || (|before| >= 100 && |after| == |before| / 2))
        && after == Rehash(Flatten(before), |after|))
  }

  /** A policy step keeps the stored bytes and the sum of bucket sizes. */
  lemma RebalancedKeepsBytes(before: seq<seq<byte>>, after: seq<seq<byte>>)
    requires Rebalanced(before, after)
    ensures multiset(Flatten(after)) == multiset(Flatten(before))
    ensures SumSizes(after) == SumSizes(before)
  {
    if after != before {
      RehashPreservesBytes(Flatten(before), |after|);
    }
  }
}
