# cbytes in Dafny

A model of the Go package `cbytes`, a sharded container of single bytes. The
container is built in four layers, and each layer is a Dafny class whose fields
the methods update in place.

- **Bucket** (`bucket.dfy`, module `Buckets`) is a growable byte sequence with
  its own size counter. It supports append, bounds-checked get and set,
  splice-out delete, and clear. Its invariant is `size == |values|`.
- **Resize policy** (`redistributor.dfy`, module `Redistribution`) is the
  segment's `byteRedistributor`. It does three things:
  - it computes a fullness threshold from the integer average occupancy and
    the load factor;
  - it classifies the bucket just touched and bumps the counter that goes with
    that class;
  - it decides whether to double or halve the bucket array. When it resizes,
    it drains every bucket and re-routes each byte `v` to bucket `v % newSize`.
- **Segment** (`segment.dfy`, module `Segments`) is one shard. It puts
  round-robin on its own byte total, and it gets, sets and deletes through
  bucket `index % bucketsLen`. After each successful put or delete it consults
  the policy and adopts the resized bucket array the policy returns.
- **Concurrent bytes** (`cbytes.dfy`, module `CBytes`) is the public container.
  It holds a fixed number of segments. Append and Appends go to segment
  `total % concurrency`. Get and Set are bounds-checked against `total`.

The pure specification lives in `layout.dfy` (module `Layout`):

- `Flatten` is the drain order of a bucket array.
- `Route` and `Rehash` are the bucket array a resize builds.
- `Rebalanced` is what one policy step may do to a segment.

Each class carries a ghost abstract value:

- Bucket: `values`.
- Segment: `contents`, one byte sequence per bucket.
- Container: `shards`, the contents of each segment.

A `Valid()` predicate ties each abstract value to the concrete fields. The
methods state their results and new state in terms of these values. The
properties are proved as lemmas about the specification functions:

- a resize neither loses nor duplicates a byte;
- round-robin placement keeps every segment at its share of the total;
- a write through Set is seen by the Get at the same index and by no other index.

Three points where the code's behaviour is easy to misread:

- A segment's delete picks its bucket by the index, `index % bucketsLen`
  (`cbytes/segment.go:67`), not by the byte total as its put does.
- The bucket's delete guard lets `index == size` through (see Findings); the
  model's `Bucket.Delete` rejects every index that is not below the size.
- `cbytes.go` has no delete operation on the container; only a segment and a
  bucket delete.

Three behaviours of the code are modelled as written:

- The container's Get and Set read and write the segment that the running total
  selects, not the segment that received the byte at that index.
- A segment hands the unreduced index to its bucket.
- A declined resize keeps both policy counters. Only the branch where the new
  size equals the old one resets them, and a real resize clears them.

## Model

| member | source | states |
|---|---|---|
| Buckets.Bucket.constructor | cbytes/bucket.go:27-31 | a new bucket is empty and its counter is 0 |
| Buckets.Bucket.Put | cbytes/bucket.go:33-42 | appends `elem` at the end, adds exactly 1 to the counter, keeps `size == len(values)`, always reports `(true, nil)` |
| Buckets.Bucket.Get | cbytes/bucket.go:44-50 | fails with InvalidIndex (and 0) exactly when `index < 0` or `index >= size`; otherwise returns `values[index]`; changes nothing |
| Buckets.Bucket.Set | cbytes/bucket.go:52-59 | in range: only position `index` changes and the size is kept; out of range: `(false, InvalidIndex)` and the bucket is untouched |
| Buckets.Bucket.Delete | cbytes/bucket.go:61-74 | succeeds exactly when `0 <= index < size`; then removes that one element, shifts the rest down, drops the counter by 1, and takes exactly that byte out of the multiset; otherwise changes nothing (corrected guard, see Findings) |
| Buckets.Bucket.Clear | cbytes/bucket.go:76-84 | leaves no values and a zero counter |
| Buckets.Bucket.Size | cbytes/bucket.go:86-88 | the counter is the number of stored bytes |
| Buckets.NewBuckets | cbytes/segment.go:33-36 | `n` distinct, fresh, empty, valid buckets, as the bucket-array fill of a new segment and of a shrinking resize intends |
| Buckets.DeleteAsWrittenFaultsAtSize | cbytes/bucket.go:67-71 | with the guard as written, `Delete(size)` passes the check and faults in the splice; every index below the size removes normally |
| Layout.FlattenUpdate | cbytes/segment.go:80-81 | replacing one bucket (as a write through Set does) changes the segment's bytes and their count by exactly the difference between the old and new bucket |
| Layout.AppendToBucket | cbytes/segment.go:47-50 | putting a byte into one bucket adds exactly that byte to the segment's bytes and 1 to their count |
| Layout.RemoveFromBucket | cbytes/segment.go:67-70 | deleting one position of one bucket removes exactly that byte from the segment's bytes and 1 from their count |
| Layout.FlattenEmpty | cbytes/segment.go:33-36 | empty buckets drain to nothing |
| Layout.RehashSnoc | cbytes/redistributor.go:131-134 | reinserting one more byte `v` appends it to bucket `v % n` and changes no other bucket |
| Layout.RehashNothing | cbytes/redistributor.go:131-134 | reinserting nothing leaves every new bucket empty |
| Layout.RehashPreservesBytes | cbytes/redistributor.go:101-134 | a drain and reinsert keeps the multiset of stored bytes and their count: nothing lost, nothing duplicated |
| Layout.RouteCount | cbytes/redistributor.go:131-134 | after a resize, bucket `j` holds every copy of each value `v` with `v % n == j`, and no other value |
| Layout.RouteAppend | cbytes/redistributor.go:101-110 | each new bucket keeps drain order: bytes drained earlier (earlier old bucket, then earlier position) come first |
| Layout.RebalancedKeepsBytes | cbytes/segment.go:99-103 | any step the policy can take on a segment keeps the stored multiset and the byte total |
| Redistribution.Threshold | cbytes/redistributor.go:37-45 | the threshold is `floor(max(byteTotal / bucketNum, 100) * num / den)` with the integer division done first, and it is never below `floor(100 * num / den)` |
| Redistribution.DefaultThresholdAtLeast75 | cbytes/redistributor.go:37-45 | with the default load factor 0.75 the threshold is at least 75 |
| Redistribution.ThresholdIsMonotone | cbytes/redistributor.go:37-45 | a larger byte total never lowers the threshold |
| Redistribution.Decide | cbytes/redistributor.go:71-99 | Redistribute declines exactly for NORMAL, for OVERWEIGHT with `overweight * 4 < len`, and for UNDERWEIGHT with `len < 100` or `empty * 4 < len`; the reset-only branch happens only for an overweight empty array; a resize doubles an overweight array or halves an underweight one to at least 50 buckets |
| Redistribution.ResizeDoublesOrHalves | cbytes/redistributor.go:78-90 | a resize doubles the array, or halves it when it has at least 100 buckets |
| Redistribution.ResizeIsRebalanced | cbytes/redistributor.go:101-134 | carrying out a resize decision is a Rebalanced step and keeps the sum of bucket sizes |
| Redistribution.ConsultedIsRebalanced | cbytes/segment.go:97-103 | whatever a consultation of the policy does to a segment's bucket array (threshold refresh, classification, decision, resize) is a Rebalanced step, so it keeps every stored byte |
| Redistribution.SmallArraysOnlyGrow | cbytes/redistributor.go:80-85 | a segment with fewer than 100 buckets is never shrunk: any resize the policy orders for it follows an OVERWEIGHT status and doubles the array |
| Redistribution.FirstPutIntoDefaultSegment | cbytes/redistributor.go:37-65 | for a fresh default segment (16 buckets, load 3/4, threshold 75, zero counters) and a byte total of 1 with the touched bucket holding 1 byte, the threshold stays 75, the status is UNDERWEIGHT, the policy declines and no counter moves |
| Redistribution.ByteRedistributor.constructor | cbytes/redistributor.go:26-35 | a non-positive load factor becomes 3/4; the threshold starts at `floor(100 * loadFactor)`; both counters start at 0 |
| Redistribution.ByteRedistributor.UpdateThreshold | cbytes/redistributor.go:37-45 | stores Threshold of the new total and bucket count; changes nothing else |
| Redistribution.ByteRedistributor.CheckBucketStatus | cbytes/redistributor.go:47-65 | the status is StatusOf the bucket size and the stored threshold: OVERWEIGHT iff `size > 1000` or `size >= threshold`, adding 1 to the overweight counter only; otherwise UNDERWEIGHT iff `size == 0` (adding 1 to the empty counter only) or `size < threshold / 4` (no counter change); otherwise NORMAL; the byte total plays no part |
| Redistribution.ByteRedistributor.Redistribute | cbytes/redistributor.go:67-141 | the result flag is true exactly on a resize; the new policy state is the one Decided gives for the status, the old counters and the array length, so a declined call keeps both counters and the buckets while the reset-only branch and a resize zero both counters; a resize returns `newSize` distinct valid buckets holding exactly `Rehash` of the drained bytes, which is a Rebalanced step keeping the byte total |
| Redistribution.Rebuild | cbytes/redistributor.go:101-134 | drain, regrow and reinsert produce `Rehash` of the drained bytes at the new size |
| Redistribution.Drain | cbytes/redistributor.go:101-110 | the drain loop reads exactly the flattened bucket array, bucket by bucket, in order |
| Redistribution.Regrow | cbytes/redistributor.go:112-128 | growing clears the old buckets in place and appends fresh ones; shrinking allocates fresh ones; either way `newSize` distinct, valid, empty buckets |
| Redistribution.Reinsert | cbytes/redistributor.go:130-134 | putting each drained byte `v` into bucket `v % n` yields exactly `Rehash` of the drained bytes |
| Redistribution.IndexedFillFaults | cbytes/redistributor.go:124-126 | an indexed write loop into a slice of length `len < n` first writes out of range at index `len`; for the zero-length slice, at index 0 |
| Redistribution.ShrinkFillAsWritten | cbytes/redistributor.go:123-127 | the shrinking branch's fill, as written, faults at index 0 exactly when the new size is positive, which every shrink's new size is; it faults nowhere only for a size of 0 |
| Segments.Segment.constructor | cbytes/segment.go:24-43 | a non-positive bucket count becomes 16; the segment gets its own default policy (load 3/4, threshold 75, zero counters, which is DefaultPolicy), that many empty buckets and a zero total |
| Segments.Segment.Put | cbytes/segment.go:45-56 | `elem` goes to bucket `byteTotal % bucketsLen`, using the total before the increment; the total grows by 1; the multiset grows by exactly `elem`; the new bucket array and policy state are exactly PutStep: the policy consulted with the new total and the touched bucket's new size, and its resize decision carried out as `Rehash` of the bytes (or the array kept); always `(true, nil)` |
| Segments.Segment.PutIn | cbytes/segment.go:47-50 | bucket `k` takes the byte, the total grows by 1, no other bucket changes, and the policy object is neither replaced nor touched |
| Segments.Segment.AppendTo | cbytes/segment.go:47-51 | the byte joins bucket `k`, the total grows by 1, and the policy is then consulted on that intermediate array with the new total and bucket `k`'s new size; the resulting array and policy state are exactly that consultation's |
| Segments.Segment.Rebalance | cbytes/segment.go:49-51 | consulting the policy on bucket `k` keeps the total and the multiset, and the new array and policy state are exactly the consultation with the current total and bucket `k`'s size |
| Segments.Segment.Get | cbytes/segment.go:58-63 | reads bucket `index % bucketsLen` with the unreduced index: succeeds exactly when `index` is below that bucket's size, and then returns its byte at `index` |
| Segments.Segment.Delete | cbytes/segment.go:65-76 | succeeds exactly when `index` is below the size of bucket `index % bucketsLen`; then removes that byte, drops the total by 1, and the new array and policy state are exactly the consultation with the decremented total and that bucket's new size; otherwise the bucket array and the policy state are unchanged |
| Segments.Segment.DeleteIn | cbytes/segment.go:67-70 | bucket `k` drops position `index` and the total drops by 1, or nothing changes; the policy object is neither replaced nor touched |
| Segments.Segment.Set | cbytes/segment.go:78-84 | writes position `index` of bucket `index % bucketsLen` when it exists, otherwise InvalidIndex; never changes the total, the bucket array (the same bucket objects) or any size, and never replaces or touches the policy |
| Segments.Segment.SetIn | cbytes/segment.go:80-81 | the write through bucket `k` changes only that bucket's position `index` (or nothing, with InvalidIndex); the total, the bucket array and the policy are kept |
| Segments.Segment.Size | cbytes/segment.go:86-88 | the total is the sum of the bucket sizes |
| Segments.Segment.Redistribute | cbytes/segment.go:90-106 | the total is kept; the new bucket array and policy state are exactly Consulted: threshold refreshed, touched bucket classified with its counter bumped, and the decision for that status carried out (`Rehash` at the new size, or the array kept); a step that keeps the array length keeps the very same bucket objects |
| Segments.Segment.Classify | cbytes/segment.go:97-98 | the status and the new policy state are exactly Classified of the old policy, the total, the bucket count and the bucket size; the segment's own fields are unchanged |
| Segments.Segment.Resize | cbytes/segment.go:99-103 | the new policy state is Decided for the status; on a resize decision the array becomes `Rehash` of the stored bytes at the new size, otherwise the very same bucket array is kept; `bucketsLen == len(buckets)` is restored |
| Segments.Segment.Adopt | cbytes/segment.go:100-101 | adopting a valid bucket array with the same byte total re-establishes the segment invariant |
| Segments.SegmentFillAsWritten | cbytes/segment.go:32-36 | newSegment's fill, as written, faults at index 0 for every bucket count, since the loop runs at least once (a non-positive count becomes 16) |
| Segments.NewSegmentFirstPut | cbytes/segment.go:24-56 | the first byte put into a new default segment lands alone in bucket 0, the other 15 buckets stay empty, and the policy keeps threshold 75 and zero counters |
| Segments.FirstPutStep | cbytes/segment.go:45-56 | a put into 16 empty buckets under the default policy leaves exactly bucket 0 holding the byte and the policy state unchanged |
| CBytes.BagUpdate | cbytes/cbytes.go:58-59 | replacing one segment's contents changes the container's bytes by exactly the difference |
| CBytes.CountUpdate | cbytes/cbytes.go:58-61 | replacing one segment's contents changes the byte count by exactly the difference in that segment's size |
| CBytes.CountIsBagSize | cbytes/cbytes.go:101-103 | the byte count is the size of the multiset of stored bytes |
| CBytes.DealtNext | cbytes/cbytes.go:70-71 | one more element adds to a segment's dealt bytes exactly when its running index selects that segment |
| CBytes.DealingStep | cbytes/cbytes.go:70-71 | appending element `i` to segment `(total + i) % n` extends the dealing of the first `i` elements to the first `i + 1` |
| CBytes.ShareStep | cbytes/cbytes.go:58-61 | one more append raises exactly the share of segment `total % n`, by one |
| CBytes.SharesDifferByAtMostOne | cbytes/cbytes.go:58 | round-robin shares differ by at most one, and lower-numbered segments are never behind |
| CBytes.PutInShard | cbytes/cbytes.go:57-62 | a put into segment `total % n` adds exactly that byte and 1 to the count, and keeps every segment at its round-robin share of the new total |
| CBytes.EmptyShards | cbytes/cbytes.go:41-49 | all-empty segments hold nothing and are at their share of a zero total |
| CBytes.StoreThenLookup | cbytes/cbytes.go:83-99 | Set succeeds exactly where Get does; afterwards Get at that index returns the new byte, and Get at every other index returns what it returned before |
| CBytes.StoreKeepsCount | cbytes/cbytes.go:92-98 | Set keeps the byte count and keeps every segment at its share |
| CBytes.ConcurrentBytes.constructor | cbytes/cbytes.go:41-50 | `concurrency` fresh segments of 16 empty buckets each, every one with its own default policy (load 3/4, threshold 75, zero counters), holding nothing, with `total == 0` |
| CBytes.ConcurrentBytes.Concurrecy | cbytes/cbytes.go:53-55 | returns the constructor argument, which is the number of segments |
| CBytes.ConcurrentBytes.Append | cbytes/cbytes.go:57-65 | `elem` goes into segment `total % concurrency` and no other segment changes, neither its contents nor its policy state (the same segment objects are kept); in that segment it is exactly a PutStep: the bucket the segment's own total selects takes the byte and its policy is consulted; the total grows by 1 and the container's bytes by exactly `elem`; always `(true, nil)` |
| CBytes.ConcurrentBytes.AppendAt | cbytes/cbytes.go:59-62 | with the segment `k == total % concurrency` chosen: segment `k` takes the byte by a PutStep, every other segment keeps its contents and policy state, the total grows by 1 and the bytes by exactly `elem`
| CBytes.ConcurrentBytes.PutSegment | cbytes/cbytes.go:58-59 | segment `k` takes the byte by a PutStep from its old contents and policy state, and the other segments, their contents and policy states are untouched |
| CBytes.ConcurrentBytes.Commit | cbytes/cbytes.go:60-62 | once segment `k` has changed and the count and shares are accounted for, the container invariant holds again, with the same segment objects and every policy state kept |
| CBytes.ConcurrentBytes.CommitAppend | cbytes/cbytes.go:60-61 | the total grows by 1 after a put, the segments, their contents and their policy states are kept, and the invariant, including the round-robin shares, is restored |
| CBytes.ConcurrentBytes.Appends | cbytes/cbytes.go:67-81 | returns `(len(elems), nil)`, adds `len(elems)` to the total, and adds exactly the multiset of `elems` to the container; element `i` is dealt to segment `(total + i) % concurrency`, so each segment gains exactly the bytes Dealt to it; empty input leaves every segment's contents unchanged; the segment objects are never replaced |
| CBytes.ConcurrentBytes.AppendNext | cbytes/cbytes.go:70-78 | one iteration appends `elems[i]` to segment `(total0 + i) % concurrency`, extends the running total, multiset and dealing by it, and keeps the segment objects |
| CBytes.ConcurrentBytes.Get | cbytes/cbytes.go:83-90 | InvalidIndex exactly when `index < 0`, `index >= total`, or the as-written read misses; otherwise returns what Lookup reads in segment `total % concurrency` |
| CBytes.ConcurrentBytes.Set | cbytes/cbytes.go:92-99 | InvalidIndex with every segment's contents unchanged exactly when Store finds no position; otherwise the new contents are Store's; the total, the segment objects and every segment's policy state never change |
| CBytes.ConcurrentBytes.SetSegment | cbytes/cbytes.go:97-98 | the write in segment `k` is Store's, keeps the count and shares, keeps that segment's policy state, and leaves the other segments untouched |
| CBytes.ConcurrentBytes.Len | cbytes/cbytes.go:101-103 | the total is the number of bytes all segments hold together |
| CBytes.NewSegments | cbytes/cbytes.go:41-44 | `n` fresh, valid segments of 16 empty buckets, each with the default policy (load 3/4, threshold 75, zero counters), that share no object |
| CBytes.NewConcurrentBytes | cbytes/cbytes.go:36-51 | fails with InvalidConcurrency exactly when `concurrency <= 0` or `concurrency > 65536`; otherwise a valid container with that many segments of empty buckets, each with the default policy, and `total == 0` |
| CBytes.AppendToUntouched | cbytes/cbytes.go:57-65 | an append whose turn falls on a segment still as a new container left it puts the byte alone into that segment's bucket 0; the other segments and their policies are unchanged and the total grows by 1 |
| CBytes.TwoAppendsThenGet | cbytes/cbytes.go:83-90 | after two appends into a new two-segment container, Get(0) returns the first byte, but Get(1) fails with InvalidIndex although 1 is below the length, because Get reads segment `total % 2 == 0` |

## Left out

- Locking is not modelled. This covers the segment mutex, the `sync.Locker` parameters of the bucket, and the stale-bucket read that happens when `segment.Get` unlocks before reading. Every operation is sequential and atomic.
- The `sync/atomic` calls become plain field reads and writes. The `^uint64(0)` additions become a decrement by 1.
- Counters and totals are unbounded naturals. Wrap-around at 2^64 is not modelled, and neither is the `int(total)` conversion.
- The load factor is the rational `num/den`, with 3/4 as the default. IEEE rounding in `UpdateThreshold` is not modelled. The integer average converts to `float64` exactly below 2^53.
- `bucket.String` is not modelled. It is a conversion for printing.
- The recover-and-repanic `defer` in `segment.redistribute` is not modelled. It has no effect on behaviour.
- The `Bucket`, `Segment` and `ByteRedistributor` interfaces are not modelled as extension points. Only the concrete types are.
- A redistributor supplied by the caller to `NewConcurrentBytes` is not modelled; it would be shared by all segments. Only the `br == nil` path, where each segment builds its own policy, is modelled.
- CBytes.ConcurrentBytes.Appends: the early return on a segment error (cbytes/cbytes.go:72-74) is not a branch in the model. A segment's Put never fails, so that exit is never taken.
- CBytes.ConcurrentBytes.Appends: the bucket layout and policy state each element leaves behind are not chained through the loop; the contract fixes the total, the multiset and which bytes each segment gains, and Append states the per-element PutStep.
- Redistribution.Drain: the early return on a read error (cbytes/redistributor.go:105-107) is not a branch. The read index always stays below the bucket's size, so that return is dead.
- Segments.Segment.Get, Segments.Segment.Set and Segments.Segment.Delete require `index >= 0`. Go's `%` truncates toward zero: a negative index that is a multiple of `bucketsLen` selects bucket 0, whose own `index < 0` test (cbytes/bucket.go:45, 53, 67) then refuses it without a fault; any other negative index selects a negative bucket and faults. The container calls Get and Set only with `0 <= index < total`; it never calls Delete.
- Redistribution.ByteRedistributor.UpdateThreshold requires `bucketNum > 0`, because the source divides by it. Every segment has at least one bucket.
- Redistribution.ByteRedistributor.constructor requires `bucketCount > 0` and a positive denominator, for the same division.

## Findings

| source | as written | input that shows it | evidently intended | confidence | as-written member | corrected member |
|---|---|---|---|---|---|---|
| cbytes/bucket.go:67 | the guard rejects only `index < 0` and `index > size`, so `index == size` reaches the splice `values[index+1:]` at line 71, which is out of range | `Delete(0)` on an empty bucket, or `Delete(Size())` on any bucket | reject `index >= size`, as `Get` and `Set` do | high; not executed | Buckets.DeleteAsWrittenFaultsAtSize | Buckets.Bucket.Delete |
| cbytes/segment.go:33-35 | `make([]Bucket, 0)` followed by `buckets[i] = newBucket()` writes index 0 of a zero-length slice | any `newSegment` call, so every successful `NewConcurrentBytes` | `make([]Bucket, bucketNum)`, an array of fresh empty buckets | high; not executed | Segments.SegmentFillAsWritten | Segments.Segment.constructor |
| cbytes/redistributor.go:124-126 | the shrinking branch builds the new array the same way and writes index 0 of a zero-length slice | an UNDERWEIGHT resize of 100 buckets with at least 25 empty-bucket counts | `make([]Bucket, newSize)` | high; not executed | Redistribution.ShrinkFillAsWritten | Redistribution.Regrow |
