/** The canonical two-variant sum used to move between equivalent sum encodings. */
module Sum {

  /** `Left` is the first alternative, `Right` the second. */
  datatype Either<A, B> = Left(left: A) | Right(right: B)
}
