/** The entry type that the heap stores. It belongs to the `binheap` package,
    whose source is not part of this model: only its two fields are used. */
module Binheap {

  /** A keyed entry with an expiry time. `time.Time` is modelled as an integer
      timestamp; later instants are larger numbers. */
  datatype Node = Node(key: string, timeout: int)
}
