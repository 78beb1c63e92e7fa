/** The driver protocol: step a generator repeatedly, collecting its yields, until it
    returns. The driver is bounded by a `fuel` count of steps, so it also describes
    the state of a generator that is still running after a given number of steps. */
module Each {
  import opened Gen

  /** What driving a generator for some steps observed: the yields in order, and
      either the generator still to be stepped or the final value. */
  datatype Trace<Y, G, R> = Suspended(items: seq<Y>, rest: G) | Finished(items: seq<Y>, ret: R)

  /** `t` with `ys` observed before it. */
  function Prefix<Y, G, R>(ys: seq<Y>, t: Trace<Y, G, R>): Trace<Y, G, R>
  {
    t.(items := ys + t.items)
  }

  /** Observing `xs` and then `ys` is observing `xs + ys`. */
  lemma PrefixPrefix<Y, G, R>(xs: seq<Y>, ys: seq<Y>, t: Trace<Y, G, R>)
    ensures Prefix(xs, Prefix(ys, t)) == Prefix(xs + ys, t)
  {
    assert xs + (ys + t.items) == (xs + ys) + t.items;
  }

  /** Steps `g` at most `fuel` times, stopping early at a return. */
  function Drive<Y, G, R>(step: G -> GenResult<Y, G, R>, g: G, fuel: nat): (t: Trace<Y, G, R>)
    ensures |t.items| <= fuel
    ensures t.Suspended? ==> |t.items| == fuel
    ensures t.Finished? ==> |t.items| < fuel
    decreases fuel
  {
    if fuel == 0 then Suspended([], g)
    else
      match step(g)
      case Yield(y, next) => Prefix([y], Drive(step, next, fuel - 1))
      case Return(r) => Finished([], r)
  }

  /** `g` yields exactly `ys` and then returns `r`. */
  ghost predicate Finishes<Y, G, R>(step: G -> GenResult<Y, G, R>, g: G, ys: seq<Y>, r: R)
  {
    Drive(step, g, |ys| + 1) == Finished(ys, r)
  }

  /** `g` yields exactly `ys`, after which `g'` is the generator to step next. */
  ghost predicate Reaches<Y, G, R>(step: G -> GenResult<Y, G, R>, g: G, ys: seq<Y>, g': G)
  {
    Drive(step, g, |ys|) == Suspended(ys, g')
  }

  /** Driving depends on the generator only through its first step. */
  lemma DriveSameFirstStep<Y, G, R>(step: G -> GenResult<Y, G, R>, a: G, b: G, fuel: nat)
    requires step(a) == step(b)
    requires fuel > 0
    ensures Drive(step, a, fuel) == Drive(step, b, fuel)
  {
  }

  /** One step of a finishing generator: it either returns at once (no yields left)
      or yields the first item and continues with a generator that finishes with the
      remaining items and the same value. */
  lemma FinishesUnfold<Y, G, R>(step: G -> GenResult<Y, G, R>, g: G, ys: seq<Y>, r: R)
    ensures Finishes(step, g, ys, r) <==>
      if ys == [] then step(g) == Return(r)
      else step(g).Yield? && step(g).yielded == ys[0] && Finishes(step, step(g).cont, ys[1..], r)
  {
    if ys != [] && step(g).Yield? {
      var t := Drive(step, step(g).cont, |ys|);
      assert Drive(step, g, |ys| + 1) == Prefix([step(g).yielded], t);
      if Finishes(step, g, ys, r) {
        assert t.items == ys[1..];
      }
      if step(g).yielded == ys[0] && Finishes(step, step(g).cont, ys[1..], r) {
        assert ys == [ys[0]] + ys[1..];
      }
    }
  }

  /** One step of a generator that reaches `g'` after yielding `ys`. */
  lemma ReachesUnfold<Y, G, R>(step: G -> GenResult<Y, G, R>, g: G, ys: seq<Y>, g': G)
    ensures Reaches(step, g, ys, g') <==>
      if ys == [] then g == g'
      else step(g).Yield? && step(g).yielded == ys[0] && Reaches(step, step(g).cont, ys[1..], g')
  {
    if ys != [] && step(g).Yield? {
      var t := Drive(step, step(g).cont, |ys| - 1);
      assert Drive(step, g, |ys|) == Prefix([step(g).yielded], t);
      if Reaches(step, g, ys, g') {
        assert t.items == ys[1..];
      }
      if step(g).yielded == ys[0] && Reaches(step, step(g).cont, ys[1..], g') {
        assert ys == [ys[0]] + ys[1..];
      }
    }
  }

  /** Driving `a + b` steps is driving `a` steps and then `b` more from where the first
      run stopped; a generator that has returned stays returned. */
  lemma {:induction false} DriveSplit<Y, G, R>(step: G -> GenResult<Y, G, R>, g: G, a: nat, b: nat)
    ensures Drive(step, g, a).Finished? ==> Drive(step, g, a + b) == Drive(step, g, a)
    ensures Drive(step, g, a).Suspended? ==>
      Drive(step, g, a + b) == Prefix(Drive(step, g, a).items, Drive(step, Drive(step, g, a).rest, b))
    decreases a
  {
    if a == 0 {
      assert Drive(step, g, a) == Suspended([], g);
      assert Prefix([], Drive(step, g, b)) == Drive(step, g, b);
    } else {
      match step(g)
      case Return(r) =>
      case Yield(y, next) =>
        DriveSplit(step, next, a - 1, b);
        var t := Drive(step, next, a - 1);
        if t.Suspended? {
          var u := Drive(step, t.rest, b);
          assert Prefix([y], Prefix(t.items, u)) == Prefix([y] + t.items, u);
        }
    }
  }

  /** A generator that finishes with `ys` reaches, after its first `k` yields, a
      generator that finishes with the remaining ones. */
  lemma FinishesSplit<Y, G, R>(step: G -> GenResult<Y, G, R>, g: G, ys: seq<Y>, r: R, k: nat)
    requires Finishes(step, g, ys, r)
    requires k <= |ys|
    ensures Drive(step, g, k).Suspended?
    ensures Reaches(step, g, ys[..k], Drive(step, g, k).rest)
    ensures Finishes(step, Drive(step, g, k).rest, ys[k..], r)
  {
    DriveSplit(step, g, k, |ys| + 1 - k);
    var t := Drive(step, g, k);
    var u := Drive(step, t.rest, |ys| + 1 - k);
    assert Prefix(t.items, u) == Finished(ys, r);
    assert t.items + u.items == ys;
    assert t.items == ys[..k];
    assert u.items == ys[k..];
  }

  /** Reaching `g'` with `xs` and finishing from there with `ys` finishes with `xs + ys`. */
  lemma FinishesAfter<Y, G, R>(step: G -> GenResult<Y, G, R>, g: G, xs: seq<Y>, g': G, ys: seq<Y>, r: R)
    requires Reaches(step, g, xs, g')
    requires Finishes(step, g', ys, r)
    ensures Finishes(step, g, xs + ys, r)
  {
    DriveSplit(step, g, |xs|, |ys| + 1);
    assert |xs| + (|ys| + 1) == |xs + ys| + 1;
  }

  /** Reaching `g'` with `xs` and then `g''` with `ys` reaches `g''` with `xs + ys`. */
  lemma ReachesAfter<Y, G, R>(step: G -> GenResult<Y, G, R>, g: G, xs: seq<Y>, g': G, ys: seq<Y>, g'': G)
    requires Reaches(step, g, xs, g')
    requires Reaches(step, g', ys, g'')
    ensures Reaches(step, g, xs + ys, g'')
  {
    DriveSplit(step, g, |xs|, |ys|);
  }

  /** A generator finishes in only one way: its yields and final value are determined. */
  lemma FinishesUnique<Y, G, R>(step: G -> GenResult<Y, G, R>, g: G, ys: seq<Y>, r: R, ys': seq<Y>, r': R)
    requires Finishes(step, g, ys, r)
    requires Finishes(step, g, ys', r')
    ensures ys == ys' && r == r'
  {
    if |ys| <= |ys'| {
      DriveSplit(step, g, |ys| + 1, |ys'| - |ys|);
    } else {
      DriveSplit(step, g, |ys'| + 1, |ys| - |ys'|);
    }
  }

  /** Relabels the continuation and the return value of one step outcome. */
  function LiftResult<Y, G, R, G2, R2>(wrap: G -> G2, mapR: R -> R2, s: GenResult<Y, G, R>): GenResult<Y, G2, R2>
  {
    match s
    case Yield(y, c) => Yield(y, wrap(c))
    case Return(r) => Return(mapR(r))
  }

  /** Relabels the pending generator and the final value of a trace. */
  function LiftTrace<Y, G, R, G2, R2>(wrap: G -> G2, mapR: R -> R2, t: Trace<Y, G, R>): Trace<Y, G2, R2>
  {
    match t
    case Suspended(ys, g) => Suspended(ys, wrap(g))
    case Finished(ys, r) => Finished(ys, mapR(r))
  }

  /** A wrapper whose every step is the wrapped generator's step, relabelled, yields
      exactly what the wrapped generator yields for any number of steps. */
  lemma {:induction false} DriveLift<Y, G, R, G2, R2>(step: G -> GenResult<Y, G, R>, step2: G2 -> GenResult<Y, G2, R2>,
                                                     wrap: G -> G2, mapR: R -> R2, g: G, fuel: nat)
    requires forall a :: step2(wrap(a)) == LiftResult(wrap, mapR, step(a))
    ensures Drive(step2, wrap(g), fuel) == LiftTrace(wrap, mapR, Drive(step, g, fuel))
    decreases fuel
  {
    if fuel > 0 {
      match step(g)
      case Return(r) =>
      case Yield(y, next) =>
        DriveLift(step, step2, wrap, mapR, next, fuel - 1);
    }
  }

  /** The driver loop: step until the generator returns or the fuel runs out,
      collecting the yields. */
  method Run<Y, G, R>(step: G -> GenResult<Y, G, R>, g: G, fuel: nat) returns (t: Trace<Y, G, R>)
    ensures t == Drive(step, g, fuel)
  {
    var ys: seq<Y> := [];
    var cur := g;
    var left := fuel;
    while left > 0
      invariant Drive(step, g, fuel) == Prefix(ys, Drive(step, cur, left))
      decreases left
    {
      match step(cur)
      case Return(r) =>
        assert Drive(step, cur, left) == Finished([], r);
        return Finished(ys, r);
      case Yield(y, next) =>
        var t := Drive(step, next, left - 1);
        assert Drive(step, cur, left) == Prefix([y], t);
        PrefixPrefix(ys, [y], t);
        ys := ys + [y];
        cur := next;
        left := left - 1;
    }
    assert Drive(step, cur, left) == Suspended([], cur);
    t := Suspended(ys, cur);
  }
}
