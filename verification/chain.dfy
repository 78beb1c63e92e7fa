/** The sequencing combinator: drive a first generator, forwarding its yields; when
    it returns `r`, build the second generator with the continuation `k(r)`, once,
    and drive that to the end. Only a continuation without captured state is needed,
    so `k` is passed to the step function rather than stored. */
module ChainComb {
  import opened Gen
  import opened Each

  /** Phase 1 drives `g`; phase 2 drives the generator built from its return. */
  datatype GenChain<G, H> = First(g: G) | Second(h: H)

  /** A chain starts in phase 1 on `g`. */
  function Chain<G, H>(g: G): (c: GenChain<G, H>)
    ensures c.First? && c.g == g
  {
    First(g)
  }

  /** One phase-2 step. */
  function SecondStep<Y, H, RH, G>(stepH: H -> GenResult<Y, H, RH>, h: H): (r: GenResult<Y, GenChain<G, H>, RH>)
    ensures r == LiftResult(h' => Second(h'), x => x, stepH(h))
  {
    match stepH(h)
    case Yield(y, h') => Yield(y, Second(h'))
    case Return(rh) => Return(rh)
  }

  /** One chain step. When the first generator returns, the second is built and
      stepped in the same step, so the chain's yields are the two streams joined. */
  function ChainStep<Y, G, RG, H, RH>(stepG: G -> GenResult<Y, G, RG>, k: RG -> H, stepH: H -> GenResult<Y, H, RH>,
                                      c: GenChain<G, H>): (r: GenResult<Y, GenChain<G, H>, RH>)
    ensures c.First? && stepG(c.g).Yield? ==> r == Yield(stepG(c.g).yielded, First(stepG(c.g).cont))
    ensures c.First? && stepG(c.g).Return? ==> r == SecondStep(stepH, k(stepG(c.g).result))
    ensures c.Second? ==> r == SecondStep(stepH, c.h)
  {
    match c
    case First(g) =>
      (match stepG(g)
       case Yield(y, g') => Yield(y, First(g'))
       case Return(rg) => SecondStep(stepH, k(rg)))
    case Second(h) => SecondStep(stepH, h)
  }

  function ChainStepFn<Y, G, RG, H, RH>(stepG: G -> GenResult<Y, G, RG>, k: RG -> H, stepH: H -> GenResult<Y, H, RH>)
    : GenChain<G, H> -> GenResult<Y, GenChain<G, H>, RH>
  {
    c => ChainStep(stepG, k, stepH, c)
  }

  /** In phase 2 the chain yields and returns exactly what the second generator does. */
  lemma SecondFinishes<Y, G, RG, H, RH>(stepG: G -> GenResult<Y, G, RG>, k: RG -> H, stepH: H -> GenResult<Y, H, RH>,
                                        h: H, hs: seq<Y>, rh: RH)
    requires Finishes(stepH, h, hs, rh)
    ensures Finishes(ChainStepFn(stepG, k, stepH), Second(h), hs, rh)
  {
    DriveLift(stepH, ChainStepFn(stepG, k, stepH), h' => Second(h'), (x: RH) => x, h, |hs| + 1);
  }

  /** If the first generator finishes with `gs` and `rg`, and the generator built from
      `rg` finishes with `hs` and `rh`, then the chain finishes with `gs + hs` and `rh`. */
  lemma {:induction false} ChainFinishes<Y, G, RG, H, RH>(stepG: G -> GenResult<Y, G, RG>, k: RG -> H,
                                                          stepH: H -> GenResult<Y, H, RH>,
                                                          g: G, gs: seq<Y>, rg: RG, hs: seq<Y>, rh: RH)
    requires Finishes(stepG, g, gs, rg)
    requires Finishes(stepH, k(rg), hs, rh)
    ensures Finishes(ChainStepFn(stepG, k, stepH), Chain(g), gs + hs, rh)
    decreases |gs|
  {
    var chain := ChainStepFn(stepG, k, stepH);
    FinishesUnfold(stepG, g, gs, rg);
    if gs == [] {
      SecondFinishes(stepG, k, stepH, k(rg), hs, rh);
      DriveSameFirstStep(chain, First(g), Second(k(rg)), |hs| + 1);
      assert gs + hs == hs;
    } else {
      var g' := stepG(g).cont;
      ChainFinishes(stepG, k, stepH, g', gs[1..], rg, hs, rh);
      assert (gs + hs)[1..] == gs[1..] + hs;
      FinishesUnfold(chain, First(g), gs + hs, rh);
    }
  }
}
