/** The two-variant sum of the generator layer, and the generator it forms when both
    variants hold generators with the same yield and return types: a step drives
    whichever generator is held and keeps the variant. */
module EitherGen {
  import opened Gen
  import opened Each

  /** `Former` is the first alternative, `Latter` the second. */
  datatype GenEither<A, B> = Former(former: A) | Latter(latter: B)

  /** One step of the held generator, re-tagged with the same variant. */
  function EitherStep<Y, A, B, R>(stepA: A -> GenResult<Y, A, R>, stepB: B -> GenResult<Y, B, R>,
                                  e: GenEither<A, B>): (r: GenResult<Y, GenEither<A, B>, R>)
    ensures e.Former? ==> r == LiftResult(a => Former(a), x => x, stepA(e.former))
    ensures e.Latter? ==> r == LiftResult(b => Latter(b), x => x, stepB(e.latter))
  {
    match e
    case Former(a) =>
      (match stepA(a)
       case Yield(y, a') => Yield(y, Former(a'))
       case Return(r) => Return(r))
    case Latter(b) =>
      match stepB(b)
      case Yield(y, b') => Yield(y, Latter(b'))
      case Return(r) => Return(r)
  }

  function EitherStepFn<Y, A, B, R>(stepA: A -> GenResult<Y, A, R>, stepB: B -> GenResult<Y, B, R>)
    : GenEither<A, B> -> GenResult<Y, GenEither<A, B>, R>
  {
    e => EitherStep(stepA, stepB, e)
  }

  /** A `Former` generator yields and returns exactly what the held generator does. */
  lemma FormerFinishes<Y, A, B, R>(stepA: A -> GenResult<Y, A, R>, stepB: B -> GenResult<Y, B, R>,
                                   a: A, ys: seq<Y>, r: R)
    requires Finishes(stepA, a, ys, r)
    ensures Finishes(EitherStepFn(stepA, stepB), Former(a), ys, r)
  {
    DriveLift(stepA, EitherStepFn(stepA, stepB), a' => Former(a'), (x: R) => x, a, |ys| + 1);
  }

  /** A `Latter` generator yields and returns exactly what the held generator does. */
  lemma LatterFinishes<Y, A, B, R>(stepA: A -> GenResult<Y, A, R>, stepB: B -> GenResult<Y, B, R>,
                                   b: B, ys: seq<Y>, r: R)
    requires Finishes(stepB, b, ys, r)
    ensures Finishes(EitherStepFn(stepA, stepB), Latter(b), ys, r)
  {
    DriveLift(stepB, EitherStepFn(stepA, stepB), b' => Latter(b'), (x: R) => x, b, |ys| + 1);
  }
}
