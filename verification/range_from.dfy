/** The unbounded counter: `start..` stepped as a generator. Its return type is
    uninhabited; here the return type is left as a free type parameter `R`, so the
    step has no value to return and can only yield. */
module RangeGen {
  import opened StdIter
  import opened Gen
  import opened Each

  /** One counter step: advance the range and yield the item it produced. The
      retry loop around `next` never repeats, because an unbounded range always
      produces an item. */
  function CounterStep<R>(x: RangeFrom): (r: GenResult<int, RangeFrom, R>)
    ensures r.Yield?
    ensures r.yielded == x.start
    ensures r.cont == RangeFrom(x.start + 1)
  {
    var (item, rest) := RangeFromNext(x);
    Yield(item.value, rest)
  }

  /** Stepping the counter `k` times from `s` yields `s, s + 1, ..., s + k - 1`,
      never returns, and leaves the counter at `s + k`. */
  lemma {:induction false} CounterDrive<R>(s: int, k: nat)
    ensures Drive(CounterStep<R>, RangeFrom(s), k) == Suspended(Upto(s, s + k), RangeFrom(s + k))
    decreases k
  {
    if k > 0 {
      CounterDrive<R>(s + 1, k - 1);
    }
  }

  /** No number of steps makes the counter return. */
  lemma CounterNeverFinishes<R>(s: int, ys: seq<int>, r: R)
    ensures !Finishes(CounterStep<R>, RangeFrom(s), ys, r)
  {
    CounterDrive<R>(s, |ys| + 1);
  }

  /** The collatz successor. */
  function CollatzNext(x: int): int
  {
    if x % 2 == 0 then x / 2 else x * 3 + 1
  }

  /** The collatz driver: the counter supplies the step number, the handler records
      the current value and either exits with `(step number, values seen)` at 1 or
      moves on to the successor. `fuel` bounds the number of counter steps. */
  function Collatz(counter: RangeFrom, x: int, v: seq<int>, fuel: nat): (r: Option<(int, seq<int>)>)
    // on exit the recorded values extend the earlier ones, start at `x` and end at 1,
    // and the counter has moved once per recorded value
    ensures r.Some? ==> |v| < |r.value.1| && r.value.1[..|v|] == v && r.value.1[|v|] == x
    ensures r.Some? ==> r.value.1[|r.value.1| - 1] == 1
    ensures r.Some? ==> r.value.0 == counter.start + |r.value.1| - |v| - 1
    // the driver exits only when it reaches 1 within `fuel` steps
    ensures r.Some? ==> |r.value.1| - |v| <= fuel
    decreases fuel
  {
    if fuel == 0 then None
    else
      var s := CounterStep<(int, seq<int>)>(counter);
      var v' := v + [x];
      if x == 1 then Some((s.yielded, v'))
      else Collatz(s.cont, CollatzNext(x), v', fuel - 1)
  }

  /** Whenever the collatz driver exits, the step number it reports equals the number
      of values it recorded; the recorded values extend the ones before, start at the
      current value, follow the collatz successor, and end at 1, which occurs only there. */
  lemma {:induction false} CollatzCountsVisits(counter: RangeFrom, x: int, v: seq<int>, fuel: nat,
                                               steps: int, vs: seq<int>)
    requires counter.start == |v| + 1
    requires Collatz(counter, x, v, fuel) == Some((steps, vs))
    ensures steps == |vs|
    ensures |v| < |vs| && vs[..|v|] == v && vs[|v|] == x
    ensures vs[|vs| - 1] == 1
    ensures forall i :: |v| <= i < |vs| - 1 ==> vs[i] != 1 && vs[i + 1] == CollatzNext(vs[i])
    decreases fuel
  {
    var s := CounterStep<(int, seq<int>)>(counter);
    var v' := v + [x];
    if x != 1 {
      CollatzCountsVisits(s.cont, CollatzNext(x), v', fuel - 1, steps, vs);
      assert vs[..|v|] == vs[..|v'|][..|v|];
    }
  }

  /** Starting from 10, the driver visits exactly 10, 5, 16, 8, 4, 2, 1 and reports 7
      steps. */
  lemma CollatzFromTen(fuel: nat)
    requires fuel >= 7
    ensures Collatz(RangeFrom(1), 10, [], fuel) == Some((7, [10, 5, 16, 8, 4, 2, 1]))
  {
    var seen := [10, 5, 16, 8, 4, 2, 1];
    assert CollatzNext(10) == 5 && CollatzNext(5) == 16 && CollatzNext(16) == 8;
    assert CollatzNext(8) == 4 && CollatzNext(4) == 2 && CollatzNext(2) == 1;
    assert seen[..6] + [1] == seen;
    assert Collatz(RangeFrom(7), 1, seen[..6], fuel - 6) == Some((7, seen));
    assert seen[..5] + [2] == seen[..6];
    assert Collatz(RangeFrom(6), 2, seen[..5], fuel - 5) == Some((7, seen));
    assert seen[..4] + [4] == seen[..5];
    assert Collatz(RangeFrom(5), 4, seen[..4], fuel - 4) == Some((7, seen));
    assert seen[..3] + [8] == seen[..4];
    assert Collatz(RangeFrom(4), 8, seen[..3], fuel - 3) == Some((7, seen));
    assert seen[..2] + [16] == seen[..3];
    assert Collatz(RangeFrom(3), 16, seen[..2], fuel - 2) == Some((7, seen));
    assert seen[..1] + [5] == seen[..2];
    assert Collatz(RangeFrom(2), 5, seen[..1], fuel - 1) == Some((7, seen));
    assert [] + [10] == seen[..1];
  }
}
