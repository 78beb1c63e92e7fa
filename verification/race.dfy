/** The race combinator: two generators with the same yield type take strict turns,
    the first one going first. Each race step drives the active operand exactly once
    and then hands the turn over. When the active operand returns, the race returns at
    once, handing back the other operand exactly as it stood, tagged with which side
    finished. */
module RaceComb {
  import opened Sum
  import opened Gen
  import opened Each
  import opened EitherGen
  import opened StdIter
  import opened IterWrap
  import opened MapRet

  /** `Former((f, l))`: `f` moves next; `Latter((f, l))`: `l` moves next. */
  datatype GenRace<F, L> = GenRace(state: GenEither<(F, L), (F, L)>)

  /** The race's final value: the first operand finished with its value and the held
      second operand, or the second operand finished with the held first operand. */
  type RaceResult<F, RF, L, RL> = GenEither<(RF, L), (F, RL)>

  /** The two operands, whichever is active. */
  function Operands<F, L>(g: GenRace<F, L>): (F, L)
  {
    match g.state
    case Former(p) => p
    case Latter(p) => p
  }

  /** `race(f, l)`: the first operand moves first. */
  function Race<F, L>(f: F, l: L): (g: GenRace<F, L>)
    ensures g.state.Former?
    ensures Operands(g) == (f, l)
  {
    GenRace(Former((f, l)))
  }

  /** One race step. */
  function RaceStep<Y, F, RF, L, RL>(stepF: F -> GenResult<Y, F, RF>, stepL: L -> GenResult<Y, L, RL>,
                                     g: GenRace<F, L>): (r: GenResult<Y, GenRace<F, L>, RaceResult<F, RF, L, RL>>)
    // the first operand's turn: it moves once, the second is untouched
    ensures g.state.Former? ==>
      var (f, l) := Operands(g);
      && (r.Yield? <==> stepF(f).Yield?)
      && (r.Yield? ==> r.yielded == stepF(f).yielded && r.cont.state.Latter? && Operands(r.cont) == (stepF(f).cont, l))
      && (r.Return? ==> r.result == Former((stepF(f).result, l)))
    // the second operand's turn: it moves once, the first is untouched
    ensures g.state.Latter? ==>
      var (f, l) := Operands(g);
      && (r.Yield? <==> stepL(l).Yield?)
      && (r.Yield? ==> r.yielded == stepL(l).yielded && r.cont.state.Former? && Operands(r.cont) == (f, stepL(l).cont))
      && (r.Return? ==> r.result == Latter((f, stepL(l).result)))
  {
    match g.state
    case Former((f, l)) =>
      (match Inj(stepF(f))
       case Left((y, f')) => Yield(y, GenRace(Latter((f', l))))
       case Right(rf) => Return(Former((rf, l))))
    case Latter((f, l)) =>
      (match Inj(stepL(l))
       case Left((y, l')) => Yield(y, GenRace(Former((f, l'))))
       case Right(rl) => Return(Latter((f, rl))))
  }

  function RaceStepFn<Y, F, RF, L, RL>(stepF: F -> GenResult<Y, F, RF>, stepL: L -> GenResult<Y, L, RL>)
    : GenRace<F, L> -> GenResult<Y, GenRace<F, L>, RaceResult<F, RF, L, RL>>
  {
    g => RaceStep(stepF, stepL, g)
  }

  /** The order in which strict turn-taking, first operand first, observes two yield
      streams: alternate while both last, then the rest of the longer one. */
  function Merge<Y>(fs: seq<Y>, ls: seq<Y>): (s: seq<Y>)
    ensures |s| == |fs| + |ls|
    decreases |fs| + |ls|
  {
    if fs == [] then ls else [fs[0]] + Merge(ls, fs[1..])
  }

  /** The merge neither loses nor duplicates nor invents items. */
  lemma {:induction false} MergePermutes<Y>(fs: seq<Y>, ls: seq<Y>)
    ensures multiset(Merge(fs, ls)) == multiset(fs) + multiset(ls)
    decreases |fs| + |ls|
  {
    if fs != [] {
      MergePermutes(ls, fs[1..]);
      assert fs == [fs[0]] + fs[1..];
    }
  }

  /** While both streams last, the merge takes one item from each in turn. */
  lemma {:induction false} MergeAlternates<Y>(fs: seq<Y>, ls: seq<Y>, i: nat)
    requires i < |fs| && i < |ls|
    ensures Merge(fs, ls)[2 * i] == fs[i]
    ensures Merge(fs, ls)[2 * i + 1] == ls[i]
    decreases i
  {
    if i > 0 {
      MergeAlternates(fs[1..], ls[1..], i - 1);
      assert Merge(fs, ls) == [fs[0]] + ([ls[0]] + Merge(fs[1..], ls[1..]));
    }
  }

  /** When the first stream is no longer, the merge is the alternation of the first
      stream with as many items of the second, then the rest of the second. */
  lemma {:induction false} MergeFirstShorter<Y>(fs: seq<Y>, ls: seq<Y>)
    requires |fs| <= |ls|
    ensures Merge(fs, ls) == Merge(fs, ls[..|fs|]) + ls[|fs|..]
    decreases |fs|
  {
    if fs != [] {
      MergeFirstShorter(fs[1..], ls[1..]);
      assert ls[..|fs|][1..] == ls[1..][..|fs| - 1];
      assert ls[1..][|fs| - 1..] == ls[|fs|..];
      calc {
        Merge(fs, ls);
        [fs[0]] + ([ls[0]] + Merge(fs[1..], ls[1..]));
        [fs[0]] + ([ls[0]] + (Merge(fs[1..], ls[1..][..|fs| - 1]) + ls[|fs|..]));
        ([fs[0]] + ([ls[0]] + Merge(fs[1..], ls[..|fs|][1..]))) + ls[|fs|..];
        Merge(fs, ls[..|fs|]) + ls[|fs|..];
      }
    }
  }

  /** When the first stream is longer, the merge is the alternation of the second
      stream with one more item of the first, then the rest of the first. */
  lemma {:induction false} MergeSecondShorter<Y>(fs: seq<Y>, ls: seq<Y>)
    requires |fs| > |ls|
    ensures Merge(fs, ls) == Merge(fs[..|ls| + 1], ls) + fs[|ls| + 1..]
    decreases |ls|
  {
    if ls == [] {
      assert Merge(fs, ls) == [fs[0]] + fs[1..];
      assert Merge(fs[..1], ls) == [fs[0]];
    } else {
      MergeSecondShorter(fs[1..], ls[1..]);
      assert fs[..|ls| + 1][1..] == fs[1..][..|ls|];
      assert fs[1..][|ls|..] == fs[|ls| + 1..];
      calc {
        Merge(fs, ls);
        [fs[0]] + ([ls[0]] + Merge(fs[1..], ls[1..]));
        [fs[0]] + ([ls[0]] + (Merge(fs[1..][..|ls|], ls[1..]) + fs[|ls| + 1..]));
        ([fs[0]] + ([ls[0]] + Merge(fs[..|ls| + 1][1..], ls[1..]))) + fs[|ls| + 1..];
        Merge(fs[..|ls| + 1], ls) + fs[|ls| + 1..];
      }
    }
  }

  /** The first operand finishes first: if it yields `fs` and returns `rf`, and the
      second operand yields as many items `ls` and so reaches `l'`, then the race
      yields `f0, l0, f1, l1, ...` and returns `Former((rf, l'))`: the second operand
      after exactly its `|fs|` turns, not stepped on the final turn. */
  lemma {:induction false} RaceFirstFinishes<Y, F, RF, L, RL>(stepF: F -> GenResult<Y, F, RF>,
                                                              stepL: L -> GenResult<Y, L, RL>,
                                                              f: F, fs: seq<Y>, rf: RF, l: L, ls: seq<Y>, l': L)
    requires Finishes(stepF, f, fs, rf)
    requires Reaches(stepL, l, ls, l')
    requires |ls| == |fs|
    ensures Finishes(RaceStepFn(stepF, stepL), Race(f, l), Merge(fs, ls), Former((rf, l')))
    decreases |fs|
  {
    var race := RaceStepFn(stepF, stepL);
    var res: RaceResult<F, RF, L, RL> := Former((rf, l'));
    FinishesUnfold(stepF, f, fs, rf);
    ReachesUnfold(stepL, l, ls, l');
    if fs == [] {
      FinishesUnfold(race, Race(f, l), [], res);
    } else {
      var f1, l1 := stepF(f).cont, stepL(l).cont;
      RaceFirstFinishes(stepF, stepL, f1, fs[1..], rf, l1, ls[1..], l');
      var rest := Merge(fs[1..], ls[1..]);
      var turn := GenRace(Latter((f1, l)));
      assert ([ls[0]] + rest)[1..] == rest;
      FinishesUnfold(race, turn, [ls[0]] + rest, res);
      assert Merge(fs, ls) == [fs[0]] + ([ls[0]] + rest);
      FinishesUnfold(race, Race(f, l), Merge(fs, ls), res);
    }
  }

  /** The second operand finishes first: if the first operand yields `fs` and so
      reaches `f'`, and the second yields one item fewer and returns `rl`, then the
      race yields `f0, l0, ..., f(n-1), l(n-1), fn` and returns `Latter((f', rl))`:
      the first operand as its last turn left it. */
  lemma {:induction false} RaceSecondFinishes<Y, F, RF, L, RL>(stepF: F -> GenResult<Y, F, RF>,
                                                               stepL: L -> GenResult<Y, L, RL>,
                                                               f: F, fs: seq<Y>, f': F, l: L, ls: seq<Y>, rl: RL)
    requires Reaches(stepF, f, fs, f')
    requires Finishes(stepL, l, ls, rl)
    requires |fs| == |ls| + 1
    ensures Finishes(RaceStepFn(stepF, stepL), Race(f, l), Merge(fs, ls), Latter((f', rl)))
    decreases |ls|
  {
    var race := RaceStepFn(stepF, stepL);
    var res: RaceResult<F, RF, L, RL> := Latter((f', rl));
    ReachesUnfold(stepF, f, fs, f');
    FinishesUnfold(stepL, l, ls, rl);
    var f1 := stepF(f).cont;
    var turn := GenRace(Latter((f1, l)));
    if ls == [] {
      ReachesUnfold(stepF, f1, fs[1..], f');
      FinishesUnfold(race, turn, [], res);
      assert Merge(fs, ls) == [fs[0]];
      FinishesUnfold(race, Race(f, l), Merge(fs, ls), res);
    } else {
      var l1 := stepL(l).cont;
      RaceSecondFinishes(stepF, stepL, f1, fs[1..], f', l1, ls[1..], rl);
      var rest := Merge(fs[1..], ls[1..]);
      assert ([ls[0]] + rest)[1..] == rest;
      FinishesUnfold(race, turn, [ls[0]] + rest, res);
      assert Merge(fs, ls) == [fs[0]] + ([ls[0]] + rest);
      FinishesUnfold(race, Race(f, l), Merge(fs, ls), res);
    }
  }

  /** `(a..b).wrap().map_return(|_| tag)`: a range whose exhausted end is replaced by a tag. */
  type Tagged = GenMapReturn<CoWrap<Range>, Const<string>>

  function TaggedRange(a: int, b: int, tag: string): Tagged
  {
    MapReturn(Wrap(Range(a, b)), Const(tag))
  }

  function TaggedStep(): Tagged -> GenResult<int, Tagged, string>
  {
    MapStepFn(WrapStepFn(RangeNext), CallConst)
  }

  /** A tagged range `a..b` yields `a, ..., b - 1` and returns its tag. */
  lemma TaggedRangeFinishes(a: int, b: int, tag: string)
    ensures Finishes(TaggedStep(), TaggedRange(a, b, tag), Upto(a, b), tag)
  {
    WrapRange(a, b);
    MapFinishes(WrapStepFn(RangeNext), CallConst, Wrap(Range(a, b)), Const(tag), Upto(a, b), Range(if a < b then b else a, b));
  }

  /** Merging `0, ..., n - 1` with itself pairs every item with its twin. */
  lemma MergeCounts(u: seq<int>, n: nat)
    requires u == Upto(0, n)
    ensures |Merge(u, u)| == 2 * n
    ensures forall i :: 0 <= i < 2 * n ==> Merge(u, u)[i] == i / 2
  {
    forall i | 0 <= i < 2 * n
      ensures Merge(u, u)[i] == i / 2
    {
      MergeAlternates(u, u, i / 2);
    }
  }

  /** Racing `0..m` tagged "first" against `0..n` tagged "second", with `m <= n`,
      yields each of `0, ..., m - 1` twice in a row and reports the first operand
      finished with "first", handing back the second operand as the tagged `m..n`. */
  lemma RaceTaggedRanges(m: nat, n: nat)
    requires m <= n
    ensures Finishes(RaceStepFn(TaggedStep(), TaggedStep()), Race(TaggedRange(0, m, "first"), TaggedRange(0, n, "second")),
                     Merge(Upto(0, m), Upto(0, m)), Former(("first", TaggedRange(m, n, "second"))))
    ensures Finishes(TaggedStep(), TaggedRange(m, n, "second"), Upto(m, n), "second")
  {
    var u := Upto(0, m);
    TaggedRangeFinishes(0, m, "first");
    WrapRangeReaches(0, n, m);
    MapReaches(WrapStepFn(RangeNext), CallConst, Wrap(Range(0, n)), Const("second"), u, Wrap(Range(m, n)));
    RaceFirstFinishes(TaggedStep(), TaggedStep(), TaggedRange(0, m, "first"), u, "first",
                      TaggedRange(0, n, "second"), u, TaggedRange(m, n, "second"));
    TaggedRangeFinishes(m, n, "second");
  }

  // The fixed-size lemmas below take their lengths as parameters pinned by the
  // precondition, so that the verifier does not unfold `Upto` and `Merge` on literals.

  /** Each of `0, ..., 4` twice in a row: the merge of `0..5` with itself. */
  lemma MergeFiveFive(m: nat)
    requires m == 5
    ensures Merge(Upto(0, m), Upto(0, m)) == [0, 0, 1, 1, 2, 2, 3, 3, 4, 4]
  {
    MergeCounts(Upto(0, m), m);
  }

  /** `5..10` holds 5, 6, 7, 8, 9. */
  lemma UptoFiveTen(m: nat, n: nat)
    requires m == 5 && n == 10
    ensures Upto(m, n) == [5, 6, 7, 8, 9]
  {
    var v := Upto(m, n);
    assert |v| == 5 && v[0] == 5 && v[1] == 6 && v[2] == 7 && v[3] == 8 && v[4] == 9;
  }

  /** The race test: `0..5` tagged "first" against `0..10` tagged "second" yields
      0, 0, 1, 1, 2, 2, 3, 3, 4, 4 and reports the first operand finished with "first";
      the handed-back second operand then yields 5, 6, 7, 8, 9 and returns "second". */
  lemma RaceScenario(m: nat, n: nat)
    requires m == 5 && n == 10
    ensures Finishes(RaceStepFn(TaggedStep(), TaggedStep()), Race(TaggedRange(0, m, "first"), TaggedRange(0, n, "second")),
                     [0, 0, 1, 1, 2, 2, 3, 3, 4, 4], Former(("first", TaggedRange(m, n, "second"))))
    ensures Finishes(TaggedStep(), TaggedRange(m, n, "second"), [5, 6, 7, 8, 9], "second")
  {
    RaceTaggedRanges(m, n);
    MergeFiveFive(m);
    UptoFiveTen(m, n);
  }
}
