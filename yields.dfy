/** Values shared by the producers: an optional value, and the record of what a
    generator yielded before it stopped. */
module Yields {

  datatype Option<T> = None | Some(value: T)

  /** What a generator produced when driven to its end: the values it yielded, in
      order, and, when it stopped by raising ValueError instead of finishing, the
      index of the input line whose unpacking raised it. */
  datatype Yielded<T> = Yielded(items: seq<T>, failedAt: Option<nat>) {

    /** The same run with one more value yielded for one more input line in front. */
    function Prepend(x: T): Yielded<T> {
      Yielded([x] + items, if failedAt.Some? then Some(failedAt.value + 1) else None)
    }
  }
}
