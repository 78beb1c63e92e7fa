# Cooperative generators and their combinators, in Dafny

This project models the core of a small Rust library of cooperative generators
(`o3`): the step protocol, the sequence adapter, the unbounded counter, the race
combinator and the join-to-completion combinator `all`, together with the
pieces `all` is built from (chain and return mapping).

A generator is stepped by a call that consumes it and produces either
`Yield(y, continuation)` or `Return(r)`. In the model a generator of type `G`
is given by its step function `G -> GenResult<Y, G, R>`; a step returns a new
value instead of mutating the old one, so "a generator is resumed at most once"
holds by construction. Each generic Rust generator struct is a generic datatype, and every
`impl Generator` is a step function that takes the operands' step functions as
parameters. The one data-free closure, `ContinueRemaining`, is a plain function
instead:

- `Gen` — `GenResult` and its conversions `Sur`/`Inj` to the canonical sum
  `Sum.Either<(Y, G), R>`.
- `Each` — the driver. `Drive(step, g, fuel)` steps at most `fuel` times and
  records a `Trace`: the yields so far and either the generator still to step
  (`Suspended`) or the final value (`Finished`). `Finishes(step, g, ys, r)` says
  that `g` yields exactly `ys` and then returns `r`. `Reaches(step, g, ys, g')`
  says that `g` yields exactly `ys` and `g'` is then the generator to step next.
  `Run` is the driver loop written as a `while` loop.
- `StdIter` — the iterator sources: `a..b`, `a..`, their `next`, and `Pull`, a
  reference definition of iterating a source directly.
- `RangeGen` — `a..` stepped as a generator, and the collatz driver from the tests.
- `IterWrap` — `CoWrap`, the adapter from an iterator to a generator.
- `EitherGen` — `GenEither` (`Former`/`Latter`) and the generator it forms when
  both sides are generators.
- `MapRet` — the return mapper, `GenMapReturn`.
- `ChainComb` — the two-phase chain.
- `RaceComb` — `GenRace` and `Merge`, the order in which strict turn-taking
  observes two yield streams.
- `AllComb` — `Prepend`, `Append`, `ContinueRemaining` and `GenAll`.

Closures are defunctionalised. A transform is a value (`Prepend(a)`, `Append(a)`,
`Const(v)`) applied by a call function. This matches the library's own `Prepend`
and `Append`, which are structs with a call operator.

The central results are `RaceComb.RaceFirstFinishes` and
`RaceComb.RaceSecondFinishes`, which cover the race for operands of any length,
and `AllComb.AllFinishes`. That lemma states the following for any two finishing
generators. `all` yields `Merge(fs, ls)`, which is the race's interleaving
followed by the leftover's remaining yields, `|fs| + |ls|` items in total. It
then returns `(rf, rl)` in that order, whichever operand finished first. The race
and `all` tests in the source are instances of these results (`RaceScenario`,
`AllScenario`); the wrap test `WrapOneToTen` is an instance of `IterWrap.WrapRange`,
and the collatz test `CollatzFromTen` is checked by unfolding the driver directly.

## Model

| member | source | states |
|---|---|---|
| Gen.Sur | src/gen/mod.rs:36-43 | `Left((y, c))` becomes exactly `Yield(y, c)` and `Right(r)` exactly `Return(r)`; no other pairing |
| Gen.Inj | src/gen/mod.rs:45-52 | `Yield(y, c)` becomes exactly `Left((y, c))` and `Return(r)` exactly `Right(r)` |
| Gen.InjSur | src/gen/mod.rs:37-51 | `inj(sur(e)) == e` for every sum `e`: the conversion loses nothing |
| Gen.SurInj | src/gen/mod.rs:36-52 | `sur(inj(g)) == g` for every step outcome `g` |
| Gen.SurInjBijective | src/gen/mod.rs:36-54 | `sur(e) == g` exactly when `inj(g) == e`: the two conversions are inverse bijections |
| Each.Drive | src/gen/comb/race.rs:74-90 | driving for `fuel` steps records at most `fuel` yields; it records exactly `fuel` while still suspended, and fewer once the generator has returned |
| Each.Run | src/gen/comb/race.rs:88-90 | the step-until-return loop observes the same yields and the same final state as `Drive` |
| Each.DriveSplit | src/gen/comb/race.rs:74-92 | driving `a + b` steps is driving `a` steps, then `b` more from where that run stopped; a returned generator stays returned |
| Each.FinishesUnique | src/gen/mod.rs:18 | a generator's yields and final value are determined by the generator |
| Each.DriveLift | src/gen/comb/all.rs:54 | a wrapper whose every step is the wrapped step, relabelled, yields exactly what the wrapped generator yields, for any number of steps |
| RangeGen.CounterStep | src/gen/mod.rs:84-98 | a counter step never returns: it yields the cursor `s` and continues from `s + 1` |
| RangeGen.CounterDrive | src/gen/mod.rs:91-97 | `k` counter steps from `s` yield exactly `s, s+1, ..., s+k-1` and leave the counter at `s + k` |
| RangeGen.CounterNeverFinishes | src/gen/mod.rs:88-97 | no finite number of steps makes the counter return |
| RangeGen.Collatz | src/gen/mod.rs:104-118 | the test driver `foo` stepping `1..`: on exit the recorded values extend the earlier ones, start at the current value and end at 1, the reported step number has advanced once per recorded value, and no more values are recorded than the step bound allows |
| RangeGen.CollatzCountsVisits | src/gen/mod.rs:104-122 | whenever the collatz driver exits, the reported step count equals the number of recorded values; the values follow the collatz successor and end at the first 1 |
| RangeGen.CollatzFromTen | src/gen/mod.rs:104-123 | from 10 the driver records exactly `[10, 5, 16, 8, 4, 2, 1]` and reports 7 steps |
| IterWrap.Wrap | src/iter/wrap.rs:21-24 | `wrap` leaves the source unchanged and only tags it |
| IterWrap.WrapStep | src/iter/wrap.rs:12-18 | if the source has a next item, the step yields it and continues with the advanced source; otherwise it returns the source exactly as `next` left it |
| IterWrap.WrapMirrorsIterator | src/iter/wrap.rs:12-18 | driving the adapter observes exactly what iterating the source observes (same items, same order, no loss or duplication), and it returns once the source is exhausted |
| IterWrap.WrapRange | src/iter/wrap.rs:12-18 | wrapping `a..b` yields `a, ..., b-1` and then returns a range with no next item; the yield count equals the range's length |
| IterWrap.WrapRangeReaches | src/iter/wrap.rs:13-15 | after `k` yields, a wrapped `a..b` is the wrapped `a+k..b` |
| IterWrap.WrapOneToTen | src/iter/wrap.rs:34-44 | wrapping `1..10` yields `1, ..., 9` in order (9 items, so the test's counter ends at 10) and returns a range with no next item |
| EitherGen.EitherStep | src/gen/comb/all.rs:54 | a `Former`/`Latter` generator steps the generator it holds and keeps its tag |
| EitherGen.FormerFinishes | src/gen/comb/all.rs:60 | a `Former(a)` generator yields and returns exactly what `a` does |
| EitherGen.LatterFinishes | src/gen/comb/all.rs:61 | a `Latter(b)` generator yields and returns exactly what `b` does |
| MapRet.MapReturn | src/gen/comb/all.rs:60-61 | `map_return` holds the inner generator and the transform, unchanged |
| MapRet.MapStep | src/gen/comb/all.rs:60-61 | a mapped step passes yields through with the mapper kept; on return it applies the transform once |
| MapRet.MapDrive | src/gen/comb/all.rs:60-61 | for any number of steps, a mapped generator yields exactly the inner yields; its final value is the transformed inner final value |
| MapRet.MapFinishes | src/gen/comb/all.rs:60-61 | an inner generator finishing with `ys, r` makes the mapped one finish with `ys, f(r)` |
| MapRet.MapReaches | src/gen/comb/race.rs:71-72 | a mapped generator reaches the mapped form of whatever the inner one reaches |
| ChainComb.Chain | src/gen/comb/all.rs:71 | a chain starts in its first phase on the given generator |
| ChainComb.ChainStep | src/gen/comb/all.rs:66 | phase 1 forwards yields; on return `r` it builds `k(r)` once and steps it in the same step; phase 2 forwards that generator |
| ChainComb.SecondFinishes | src/gen/comb/all.rs:66 | in phase 2 the chain yields and returns exactly what the second generator does |
| ChainComb.ChainFinishes | src/gen/comb/all.rs:66-71 | the first generator finishing with `gs, r` and `k(r)` finishing with `hs, rh` make the chain finish with `gs + hs, rh` |
| RaceComb.Race | src/gen/comb/race.rs:50-55 | `race(f, l)` starts with the first operand active, holding `f` and `l` unchanged |
| RaceComb.RaceStep | src/gen/comb/race.rs:23-44 | each step drives only the active operand, once, and leaves the held one untouched. A yield is passed on and the turn flips. A return ends the race with `Former((r, l))` or `Latter((f, r))`, handing back the held operand as it was |
| RaceComb.Merge | src/gen/comb/all.rs:95 | the turn-by-turn interleaving of two yield streams has exactly `|fs| + |ls|` items |
| RaceComb.MergePermutes | src/gen/comb/all.rs:95 | the interleaving is a permutation of the two streams together: nothing lost, duplicated or invented |
| RaceComb.MergeAlternates | src/gen/comb/race.rs:85 | while both streams last, the interleaving takes `f_i` then `l_i` |
| RaceComb.MergeFirstShorter | src/gen/comb/all.rs:95 | when the first stream is no longer, the interleaving is the alternation of equal-length prefixes followed by the rest of the second stream |
| RaceComb.MergeSecondShorter | src/gen/comb/race.rs:34-40 | when the first stream is longer, the interleaving is the alternation with one more first item, followed by the rest of the first stream |
| RaceComb.RaceFirstFinishes | src/gen/comb/race.rs:23-44 | the first operand has `m` yields and the second at least `m`. The race yields `f0, l0, ..., f(m-1), l(m-1)`, then returns `Former((rf, l'))`, where `l'` is the second operand after exactly its `m` turns |
| RaceComb.RaceSecondFinishes | src/gen/comb/race.rs:34-40 | the second operand has `n` yields and the first more. The race yields `f0, l0, ..., f(n-1), l(n-1), fn`, then returns `Latter((f', rl))`, where `f'` is the first operand after its `n + 1` turns |
| RaceComb.TaggedRangeFinishes | src/gen/comb/race.rs:71-72 | `(a..b).wrap().map_return` with a closure ignoring its argument and giving `tag` yields `a, ..., b-1` and returns the tag |
| RaceComb.RaceTaggedRanges | src/gen/comb/race.rs:70-93 | for tagged ranges `0..m` and `0..n` with `m <= n`, the race yields each of `0, ..., m-1` twice in a row and returns `Former(("first", leftover))`; the leftover yields `m, ..., n-1` and returns "second" |
| RaceComb.RaceScenario | src/gen/comb/race.rs:70-93 | the test case: the race yields `[0,0,1,1,2,2,3,3,4,4]` and returns `Former` with "first"; the leftover then yields `[5,6,7,8,9]` and returns "second" |
| AllComb.CallPrepend | src/gen/comb/all.rs:17-23 | calling `Prepend(a)` on `i` gives the pair with the held value first and the argument second |
| AllComb.CallAppend | src/gen/comb/all.rs:33-39 | calling `Append(a)` on `i` gives the pair with the argument first and the held value second |
| AllComb.PrependAppendAgree | src/gen/comb/all.rs:17-38 | `Prepend(a)(b) == (a, b)` and `Append(b)(a) == (a, b)`: both build the pair in the same order |
| AllComb.ContinueRemaining | src/gen/comb/all.rs:56-63 | `Former((rf, l))` becomes `Former(l.map_return(Prepend(rf)))` and `Latter((f, rl))` becomes `Latter(f.map_return(Append(rl)))` |
| AllComb.ContinueRemainingPairs | src/gen/comb/all.rs:59-62 | whichever side the race reports as finished, the resumed leftover yields only its own remaining items and returns `(rf, rl)` in that order |
| AllComb.All | src/gen/comb/all.rs:68-72 | `all(f, l)` starts in the race phase, with `f` to move first and both operands held unchanged |
| AllComb.AllStep | src/gen/comb/all.rs:66-71 | while the race runs, `all` passes its yields on and stays in the race phase; when the race ends, `ContinueRemaining` of its result is built and stepped in the same step; after that only the leftover moves |
| AllComb.AllFinishes | src/gen/comb/all.rs:54-71 | for operands finishing with `fs, rf` and `ls, rl`, `all` yields the race interleaving, then the leftover's remainder (`|fs| + |ls|` items), and returns `(rf, rl)` whichever finished first |
| AllComb.AllTaggedRanges | src/gen/comb/all.rs:86-96 | for tagged ranges `0..m` and `0..n` of any lengths, `all` yields their interleaving, `m + n` items, and returns `("first", "second")` |
| AllComb.AllScenario | src/gen/comb/all.rs:86-96 | the test case: `all` yields `[0,0,1,1,2,2,3,3,4,4,5,6,7,8,9]` and returns `("first", "second")` |

## Left out

- The `GenState` adapter for the external state-machine crate (src/gen/mod.rs:56-82): trait-bound plumbing over a crate that is not part of this model.
- The `Iso`/`Sur`/`Inj` trait machinery and the `unsafe impl Iso` marker: only the two conversions and their round trips are modelled.
- The `each!` macro syntax: the driver is `Each.Drive`/`Each.Run`, bounded by a step count (`fuel`), so every statement is about a finite number of steps. The collatz driver `RangeGen.Collatz` has its own fuel bound. An exit through `panic!` (race.rs:82) is not modelled; the lemmas prove that branch is not taken.
- RangeGen.CounterStep: the counter's return type `!` is modelled by leaving the return type a free parameter, so the step has no value to return; the `loop` around `next` is modelled as one iteration, since the next item of `a..` is always present.
- RangeGen.Collatz: integers are unbounded; `i64` overflow of `x * 3 + 1` and overflow of the counter (a panic or wrap in Rust) are not modelled.
- `FnOnce`/`extern "rust-call"` encoding of `Prepend`, `Append` and `ContinueRemaining`: `Prepend` and `Append` are plain datatypes with call functions (`CallPrepend`, `CallAppend`); `ContinueRemaining`, which holds only a `PhantomData`, is the plain function `AllComb.ContinueRemaining`.
- Rust move semantics: the single-resumption discipline is implicit in a pure step function.
- The chain source (`gen::comb::chain`) is not part of this model. Chain is modelled only as far as `all` uses it. Its continuation is passed to the step function instead of being stored, because the only continuation used (`ContinueRemaining`) holds no data.
- The return-mapper source (`gen::map::ret`) is not part of this model. It is modelled only as far as `all` and the tests use it; its composition law is not stated.
- The `GenEither` source (`gen::either`) is not part of this model. As a generator it is modelled as stepping the side it holds and keeping the tag, which is what `all`'s continuation at src/gen/comb/all.rs:54 requires.
- The adapter at src/iter/wrap.rs uses the older `co::Coroutine`/`CoResult` names; they are the same step protocol and are modelled with `GenResult`.
- The `Yield = F::Yield` constraint on race operands is a typing constraint: both operands share the type parameter `Y`.
