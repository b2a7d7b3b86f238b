/** Types shared by every layer of the byte container. */
module Common {

  /** One stored element: Go's `byte`, kept as an int so that rehashing can use `%`. */
  type byte = x: int | 0 <= x < 256

  /** Go's `error` result: `None` stands for `nil`. */
  datatype Option<T> = None | Some(value: T)

  /** The two error values of the package. */
  datatype Error = InvalidIndex | InvalidConcurrency

  /** Default number of buckets per segment (DEFAULT_BUCKET_NUMBER). */
  const DefaultBucketNumber: nat := 16

  /** Upper bound on the number of segments (MAX_CONCURRENCY). */
  const MaxConcurrency: nat := 65536
}
