/** Join to completion: race the two operands, then chain the race's outcome into
    a continuation that resumes whichever operand is left, mapping its final value so
    that the combined value is always `(first's value, second's value)`. */
module AllComb {
  import opened Gen
  import opened StdIter
  import opened Each
  import opened EitherGen
  import opened MapRet
  import opened ChainComb
  import opened RaceComb

  /** The transform `i => (a, i)`. */
  datatype Prepend<A> = Prepend(a: A)

  /** Calling `Prepend(a)` on `i` puts the held value first and the argument second. */
  function CallPrepend<A, I>(p: Prepend<A>, i: I): (r: (A, I))
    ensures r.0 == p.a && r.1 == i
  {
    (p.a, i)
  }

  /** The transform `i => (i, a)`. */
  datatype Append<A> = Append(a: A)

  /** Calling `Append(a)` on `i` puts the argument first and the held value second. */
  function CallAppend<A, I>(p: Append<A>, i: I): (r: (I, A))
    ensures r.0 == i && r.1 == p.a
  {
    (i, p.a)
  }

  /** Prepending the first value to the second and appending the second value to the
      first build the same ordered pair. */
  lemma PrependAppendAgree<A, B>(a: A, b: B)
    ensures CallPrepend(Prepend(a), b) == CallAppend(Append(b), a) == (a, b)
  {
  }

  /** The leftover operand, with its return mapped to complete the pair. */
  type Remaining<F, RF, L, RL> = GenEither<GenMapReturn<L, Prepend<RF>>, GenMapReturn<F, Append<RL>>>

  /** Continues whichever operand the race left over: the second one with the first's
      value prepended to its own, or the first one with the second's value appended. */
  function ContinueRemaining<F, RF, L, RL>(results: RaceResult<F, RF, L, RL>): (r: Remaining<F, RF, L, RL>)
    ensures results.Former? <==> r.Former?
    ensures r.Former? ==> r.former == MapReturn(results.former.1, Prepend(results.former.0))
    ensures r.Latter? ==> r.latter == MapReturn(results.latter.0, Append(results.latter.1))
  {
    match results
    case Former((rf, l)) => Former(MapReturn(l, Prepend(rf)))
    case Latter((f, rl)) => Latter(MapReturn(f, Append(rl)))
  }

  function RemainingStepFn<Y, F, RF, L, RL>(stepF: F -> GenResult<Y, F, RF>, stepL: L -> GenResult<Y, L, RL>)
    : Remaining<F, RF, L, RL> -> GenResult<Y, Remaining<F, RF, L, RL>, (RF, RL)>
  {
    EitherStepFn(MapStepFn(stepL, CallPrepend), MapStepFn(stepF, CallAppend))
  }

  /** Whichever side the race reports as finished, resuming the leftover yields the
      leftover's own remaining items and ends with both values in the fixed order. */
  lemma ContinueRemainingPairs<Y, F, RF, L, RL>(stepF: F -> GenResult<Y, F, RF>, stepL: L -> GenResult<Y, L, RL>,
                                                results: RaceResult<F, RF, L, RL>, ys: seq<Y>, rf: RF, rl: RL)
    requires results.Former? ==> results.former.0 == rf && Finishes(stepL, results.former.1, ys, rl)
    requires results.Latter? ==> results.latter.1 == rl && Finishes(stepF, results.latter.0, ys, rf)
    ensures Finishes(RemainingStepFn(stepF, stepL), ContinueRemaining(results), ys, (rf, rl))
  {
    match results
    case Former((_, l)) =>
      MapFinishes(stepL, CallPrepend, l, Prepend(rf), ys, rl);
      FormerFinishes(MapStepFn(stepL, CallPrepend), MapStepFn(stepF, CallAppend), MapReturn(l, Prepend(rf)), ys, (rf, rl));
    case Latter((f, _)) =>
      MapFinishes(stepF, CallAppend, f, Append(rl), ys, rf);
      LatterFinishes(MapStepFn(stepL, CallPrepend), MapStepFn(stepF, CallAppend), MapReturn(f, Append(rl)), ys, (rf, rl));
  }

  /** The state of `all`: a chain whose first phase is the race. */
  type GenAll<F, RF, L, RL> = GenChain<GenRace<F, L>, Remaining<F, RF, L, RL>>

  /** `all(f, l)`: race `f` against `l`, then continue the remainder. It starts in
      the race phase with `f` to move first and both operands held unchanged. */
  function All<F, RF, L, RL>(f: F, l: L): (g: GenAll<F, RF, L, RL>)
    ensures g.First? && g.g.state.Former? && Operands(g.g) == (f, l)
  {
    Chain(Race(f, l))
  }

  /** A step of `all`: the chain whose first phase is the race, whose continuation is
      `ContinueRemaining`, and whose second phase steps the remaining operand. */
  function AllStep<Y, F, RF, L, RL>(stepF: F -> GenResult<Y, F, RF>, stepL: L -> GenResult<Y, L, RL>,
                                    c: GenAll<F, RF, L, RL>): (r: GenResult<Y, GenAll<F, RF, L, RL>, (RF, RL)>)
    // while the race runs, its yields are passed on and the chain stays in the race phase
    ensures c.First? && RaceStep(stepF, stepL, c.g).Yield? ==>
              r == Yield(RaceStep(stepF, stepL, c.g).yielded, First(RaceStep(stepF, stepL, c.g).cont))
    // when the race ends, the leftover is continued and stepped at once
    ensures c.First? && RaceStep(stepF, stepL, c.g).Return? ==>
              r == SecondStep(RemainingStepFn(stepF, stepL), ContinueRemaining(RaceStep(stepF, stepL, c.g).result))
    // afterwards only the leftover moves
    ensures c.Second? ==> r == SecondStep(RemainingStepFn(stepF, stepL), c.h)
  {
    ChainStep(RaceStepFn(stepF, stepL), ContinueRemaining, RemainingStepFn(stepF, stepL), c)
  }

  /** The step function of `all`: the same chain step as `AllStep`, as a function value. */
  function AllStepFn<Y, F, RF, L, RL>(stepF: F -> GenResult<Y, F, RF>, stepL: L -> GenResult<Y, L, RL>)
    : GenAll<F, RF, L, RL> -> GenResult<Y, GenAll<F, RF, L, RL>, (RF, RL)>
  {
    ChainStepFn(RaceStepFn(stepF, stepL), ContinueRemaining, RemainingStepFn(stepF, stepL))
  }

  /** If the first operand finishes with `fs` and `rf` and the second with `ls` and
      `rl`, then `all` yields the race's interleaving followed by the leftover's
      remaining items, `|fs| + |ls|` items in all, and returns `(rf, rl)` whichever
      operand finished first. */
  lemma AllFinishes<Y, F, RF, L, RL>(stepF: F -> GenResult<Y, F, RF>, stepL: L -> GenResult<Y, L, RL>,
                                     f: F, fs: seq<Y>, rf: RF, l: L, ls: seq<Y>, rl: RL)
    requires Finishes(stepF, f, fs, rf)
    requires Finishes(stepL, l, ls, rl)
    ensures Finishes(AllStepFn(stepF, stepL), All<F, RF, L, RL>(f, l), Merge(fs, ls), (rf, rl))
    ensures |Merge(fs, ls)| == |fs| + |ls|
  {
    var race := RaceStepFn(stepF, stepL);
    var rest := RemainingStepFn(stepF, stepL);
    if |fs| <= |ls| {
      var m := |fs|;
      FinishesSplit(stepL, l, ls, rl, m);
      var l' := Drive(stepL, l, m).rest;
      RaceFirstFinishes(stepF, stepL, f, fs, rf, l, ls[..m], l');
      var res: RaceResult<F, RF, L, RL> := Former((rf, l'));
      ContinueRemainingPairs(stepF, stepL, res, ls[m..], rf, rl);
      ChainFinishes(race, ContinueRemaining, rest, Race(f, l), Merge(fs, ls[..m]), res, ls[m..], (rf, rl));
      MergeFirstShorter(fs, ls);
    } else {
      var n := |ls|;
      FinishesSplit(stepF, f, fs, rf, n + 1);
      var f' := Drive(stepF, f, n + 1).rest;
      RaceSecondFinishes(stepF, stepL, f, fs[..n + 1], f', l, ls, rl);
      var res: RaceResult<F, RF, L, RL> := Latter((f', rl));
      ContinueRemainingPairs(stepF, stepL, res, fs[n + 1..], rf, rl);
      ChainFinishes(race, ContinueRemaining, rest, Race(f, l), Merge(fs[..n + 1], ls), res, fs[n + 1..], (rf, rl));
      MergeSecondShorter(fs, ls);
    }
  }

  /** `all` over `0..m` tagged "first" and `0..n` tagged "second", for any lengths,
      yields their turn-by-turn merge, `m + n` items, and returns ("first", "second"). */
  lemma AllTaggedRanges(m: nat, n: nat)
    ensures Finishes(AllStepFn(TaggedStep(), TaggedStep()), All(TaggedRange(0, m, "first"), TaggedRange(0, n, "second")),
                     Merge(Upto(0, m), Upto(0, n)), ("first", "second"))
    ensures |Merge(Upto(0, m), Upto(0, n))| == m + n
  {
    TaggedRangeFinishes(0, m, "first");
    TaggedRangeFinishes(0, n, "second");
    AllFinishes(TaggedStep(), TaggedStep(), TaggedRange(0, m, "first"), Upto(0, m), "first",
                TaggedRange(0, n, "second"), Upto(0, n), "second");
  }

  /** The turn-by-turn merge of `0..5` with `0..10`. The lengths are parameters fixed
      by the precondition, so that the verifier does not unfold the recursive
      definitions on literal arguments. */
  lemma MergeFiveTen(m: nat, n: nat)
    requires m == 5 && n == 10
    ensures Merge(Upto(0, m), Upto(0, n)) == [0, 0, 1, 1, 2, 2, 3, 3, 4, 4, 5, 6, 7, 8, 9]
  {
    var u, w := Upto(0, m), Upto(0, n);
    MergeFirstShorter(u, w);
    UptoSplit(0, m, n);
    assert w[..m] == u && w[m..] == Upto(m, n);
    assert Merge(u, w) == Merge(u, u) + Upto(m, n);
    MergeFiveFive(m);
    UptoFiveTen(m, n);
    var pairs: seq<int>, tail: seq<int> := [0, 0, 1, 1, 2, 2, 3, 3, 4, 4], [5, 6, 7, 8, 9];
    assert pairs + tail == [0, 0, 1, 1, 2, 2, 3, 3, 4, 4, 5, 6, 7, 8, 9];
  }

  /** The `all` test: `0..5` tagged "first" and `0..10` tagged "second" yield
      0, 0, 1, 1, 2, 2, 3, 3, 4, 4, 5, 6, 7, 8, 9 and return ("first", "second").
      The lengths are parameters for the same reason as in `MergeFiveTen`. */
  lemma AllScenario(m: nat, n: nat)
    requires m == 5 && n == 10
    ensures Finishes(AllStepFn(TaggedStep(), TaggedStep()), All(TaggedRange(0, m, "first"), TaggedRange(0, n, "second")),
                     [0, 0, 1, 1, 2, 2, 3, 3, 4, 4, 5, 6, 7, 8, 9], ("first", "second"))
  {
    AllTaggedRanges(m, n);
    MergeFiveTen(m, n);
  }
}
