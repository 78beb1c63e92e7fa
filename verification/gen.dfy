/** The generator step protocol: one step consumes a generator and either yields a
    value together with a brand-new continuation, or returns the final value.

    A generator of type `G` with yield type `Y` and return type `R` is represented
    by its step function `G -> GenResult<Y, G, R>`; a step that returns a new value
    instead of mutating the old one makes the single-resumption discipline implicit. */
module Gen {
  import opened Sum

  /** The outcome of one step. */
  datatype GenResult<Y, G, R> = Yield(yielded: Y, cont: G) | Return(result: R)

  /** Builds a step outcome from its canonical sum encoding. */
  function Sur<Y, G, R>(e: Either<(Y, G), R>): (g: GenResult<Y, G, R>)
    ensures e.Left? <==> g.Yield?
    ensures g.Yield? ==> (g.yielded, g.cont) == e.left
    ensures g.Return? ==> g.result == e.right
  {
    match e
    case Left((y, c)) => Yield(y, c)
    case Right(r) => Return(r)
  }

  /** Encodes a step outcome as the canonical sum. */
  function Inj<Y, G, R>(g: GenResult<Y, G, R>): (e: Either<(Y, G), R>)
    ensures g.Yield? <==> e.Left?
    ensures e.Left? ==> e.left == (g.yielded, g.cont)
    ensures e.Right? ==> e.right == g.result
  {
    match g
    case Yield(y, c) => Left((y, c))
    case Return(r) => Right(r)
  }

  /** Encoding then decoding a sum loses nothing. */
  lemma InjSur<Y, G, R>(e: Either<(Y, G), R>)
    ensures Inj(Sur(e)) == e
  {
  }

  /** Decoding then encoding a step outcome loses nothing. */
  lemma SurInj<Y, G, R>(g: GenResult<Y, G, R>)
    ensures Sur(Inj(g)) == g
  {
  }

  /** The two conversions are mutually inverse bijections: an outcome and a sum
      correspond exactly when one is the image of the other. */
  lemma SurInjBijective<Y, G, R>(g: GenResult<Y, G, R>, e: Either<(Y, G), R>)
    ensures Sur(e) == g <==> Inj(g) == e
  {
  }
}
