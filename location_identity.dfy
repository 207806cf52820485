/**
 * Abstract memory locations, as the optimizer uses them to decide whether two
 * memory operations may be reordered. `Any` stands for all of memory.
 */
module Locations {

  datatype LocationIdentity =
    | Any
    | Named(name: string)
  {
    predicate IsAny() {
      this.Any?
    }

    /**
     * Two locations overlap when either is `Any` or they are the same location;
     * operations on overlapping locations must keep their order.
     */
    predicate Overlaps(other: LocationIdentity) {
      IsAny() || other.IsAny() || this == other
    }
  }
}
