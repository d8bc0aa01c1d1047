/** The record both priority queues store, and the errors their operations
    report (the C++ exceptions `std::out_of_range` and `std::invalid_argument`). */
module Vertex {

  /** One per-vertex label of the shortest-path drivers. Heaps order these by
      `distance`; the binary heap's index and the drivers look them up by
      `vertex` alone. */
  datatype VertexInfo = VertexInfo(vertex: int, distance: int, parent: int, isRemoved: bool)

  datatype Error = OutOfRange | InvalidArgument

  datatype Result<T> = Success(value: T) | Failure(error: Error)

  datatype Outcome = Pass | Fail(error: Error)

  /** `std::numeric_limits<int>::max()` of a 32-bit `int`. */
  const INT_MAX: int := 0x7fff_ffff

  /** The "infinite" distance the drivers start every vertex with. */
  const Unreached: int := INT_MAX / 2
}
