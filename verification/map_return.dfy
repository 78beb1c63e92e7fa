/** The return-value mapper: passes every yield of the inner generator through and
    applies a transform, once, to its final value. Transforms are values of a type
    `Fn` applied by a `call` function, the way the library's own transforms are
    structs with a call operator. */
module MapRet {
  import opened Gen
  import opened Each

  datatype GenMapReturn<G, Fn> = GenMapReturn(inner: G, f: Fn)

  /** Wraps `g` so that its final value is transformed by `f`. */
  function MapReturn<G, Fn>(g: G, f: Fn): (m: GenMapReturn<G, Fn>)
    ensures m.inner == g && m.f == f
  {
    GenMapReturn(g, f)
  }

  /** One step: re-emit a yield with the continuation wrapped again, or return the
      transformed final value. */
  function MapStep<Y, G, R, Fn, S>(step: G -> GenResult<Y, G, R>, call: (Fn, R) -> S,
                                   m: GenMapReturn<G, Fn>): (r: GenResult<Y, GenMapReturn<G, Fn>, S>)
    ensures r.Yield? <==> step(m.inner).Yield?
    ensures r.Yield? ==> r.yielded == step(m.inner).yielded && r.cont == GenMapReturn(step(m.inner).cont, m.f)
    ensures r.Return? ==> r.result == call(m.f, step(m.inner).result)
  {
    match step(m.inner)
    case Yield(y, g) => Yield(y, GenMapReturn(g, m.f))
    case Return(r) => Return(call(m.f, r))
  }

  function MapStepFn<Y, G, R, Fn, S>(step: G -> GenResult<Y, G, R>, call: (Fn, R) -> S)
    : GenMapReturn<G, Fn> -> GenResult<Y, GenMapReturn<G, Fn>, S>
  {
    m => MapStep(step, call, m)
  }

  /** Mapping the return leaves the yields untouched and transforms the final value
      once; while the inner generator is still running, the mapper stays wrapped
      around it with the same transform. */
  lemma MapDrive<Y, G, R, Fn, S>(step: G -> GenResult<Y, G, R>, call: (Fn, R) -> S, g: G, f: Fn, fuel: nat)
    ensures Drive(MapStepFn(step, call), MapReturn(g, f), fuel) ==
      match Drive(step, g, fuel)
      case Suspended(ys, g') => Suspended(ys, MapReturn(g', f))
      case Finished(ys, r) => Finished(ys, call(f, r))
  {
    DriveLift(step, MapStepFn(step, call), a => GenMapReturn(a, f), r => call(f, r), g, fuel);
  }

  /** A mapped generator finishes with the inner generator's yields and the
      transformed final value. */
  lemma MapFinishes<Y, G, R, Fn, S>(step: G -> GenResult<Y, G, R>, call: (Fn, R) -> S, g: G, f: Fn, ys: seq<Y>, r: R)
    requires Finishes(step, g, ys, r)
    ensures Finishes(MapStepFn(step, call), MapReturn(g, f), ys, call(f, r))
  {
    MapDrive(step, call, g, f, |ys| + 1);
  }

  /** A mapped generator reaches the wrapped form of the generator the inner one reaches. */
  lemma MapReaches<Y, G, R, Fn, S>(step: G -> GenResult<Y, G, R>, call: (Fn, R) -> S, g: G, f: Fn, ys: seq<Y>, g': G)
    requires Reaches(step, g, ys, g')
    ensures Reaches(MapStepFn(step, call), MapReturn(g, f), ys, MapReturn(g', f))
  {
    MapDrive(step, call, g, f, |ys|);
  }

  /** A transform that ignores its argument: the closure `|_| value`. */
  datatype Const<T> = Const(value: T)

  function CallConst<T, I>(c: Const<T>, i: I): T
  {
    c.value
  }
}
