/** The sequence adapter: any iterator, stepped as a generator. It yields the
    iterator's items in order and, once the iterator is exhausted, returns the
    exhausted iterator itself. */
module IterWrap {
  import opened StdIter
  import opened Gen
  import opened Each

  /** An iterator tagged as a generator. */
  datatype CoWrap<I> = CoWrap(iter: I)

  /** Tags an iterator as a generator, leaving the iterator as it is. */
  function Wrap<I>(i: I): (w: CoWrap<I>)
    ensures w.iter == i
  {
    CoWrap(i)
  }

  /** One step: advance the iterator; yield its item and continue with the advanced
      iterator, or return the iterator as `next` left it. */
  function WrapStep<Y, I>(next: I -> (Option<Y>, I), w: CoWrap<I>): (r: GenResult<Y, CoWrap<I>, I>)
    ensures r.Yield? <==> next(w.iter).0.Some?
    ensures r.Yield? ==> r.yielded == next(w.iter).0.value && r.cont.iter == next(w.iter).1
    ensures r.Return? ==> r.result == next(w.iter).1
  {
    var (item, i) := next(w.iter);
    match item
    case Some(y) => Yield(y, CoWrap(i))
    case None => Return(i)
  }

  /** The step function of the adapter over `next`. */
  function WrapStepFn<Y, I>(next: I -> (Option<Y>, I)): CoWrap<I> -> GenResult<Y, CoWrap<I>, I>
  {
    w => WrapStep(next, w)
  }

  /** Driving the adapter observes exactly what iterating the source observes: the
      same items in the same order, returning the source once (and only once) a
      `next` call comes back empty. */
  lemma {:induction false} WrapMirrorsIterator<Y, I>(next: I -> (Option<Y>, I), i: I, fuel: nat)
    ensures Drive(WrapStepFn(next), Wrap(i), fuel) ==
      var p := Pull(next, i, fuel);
      if p.exhausted then Finished(p.items, p.iter) else Suspended(p.items, CoWrap(p.iter))
    decreases fuel
  {
    if fuel > 0 {
      var (item, i') := next(i);
      if item.Some? {
        WrapMirrorsIterator(next, i', fuel - 1);
      }
    }
  }

  /** Wrapping `a..b` yields `a, ..., b - 1` and returns the range exhausted at its end,
      from which no further item comes; the number of yields is the range's length. */
  lemma WrapRange(a: int, b: int)
    ensures Finishes(WrapStepFn(RangeNext), Wrap(Range(a, b)), Upto(a, b), Range(if a < b then b else a, b))
    ensures RangeNext(Range(if a < b then b else a, b)).0 == None
    ensures |Upto(a, b)| == Len(Range(a, b))
  {
    WrapMirrorsIterator(RangeNext, Range(a, b), |Upto(a, b)| + 1);
    PullRange(a, b, |Upto(a, b)| + 1);
  }

  /** After `k` yields, a wrapped range `a..b` (with at least `k` items) has yielded
      `a, ..., a + k - 1` and is the wrapped range `a + k..b`. */
  lemma WrapRangeReaches(a: int, b: int, k: nat)
    requires k <= Len(Range(a, b))
    ensures Reaches(WrapStepFn(RangeNext), Wrap(Range(a, b)), Upto(a, a + k), Wrap(Range(a + k, b)))
  {
    WrapMirrorsIterator(RangeNext, Range(a, b), k);
    PullRangePrefix(a, b, k);
  }

  /** Wrapping `1..10`: the handler sees 1, 2, ..., 9, each equal to a counter that
      starts at 1, so the counter ends at 10; the returned range has no next item. */
  lemma WrapOneToTen()
    ensures Finishes(WrapStepFn(RangeNext), Wrap(Range(1, 10)), [1, 2, 3, 4, 5, 6, 7, 8, 9], Range(10, 10))
    ensures RangeNext(Range(10, 10)).0 == None
  {
    WrapRange(1, 10);
    var s := Upto(1, 10);
    assert s == [1, 2, 3, 4, 5, 6, 7, 8, 9];
  }
}
