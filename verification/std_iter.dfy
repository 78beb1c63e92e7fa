/** The sequence sources the generators are built from: the half-open range
    `start..end` and the unbounded range `start..`, each with its iterator `next`,
    which returns the next item (if any) together with the advanced iterator. */
module StdIter {

  datatype Option<T> = None | Some(value: T)

  /** `start..end`: the integers from `start` up to, not including, `end`. */
  datatype Range = Range(start: int, end: int)

  /** `start..`: every integer from `start` upwards. */
  datatype RangeFrom = RangeFrom(start: int)

  /** Number of items left in a range. */
  function Len(r: Range): nat
  {
    if r.start < r.end then r.end - r.start else 0
  }

  /** The integers `a, a + 1, ..., b - 1` (empty when `b <= a`). */
  function Upto(a: int, b: int): (s: seq<int>)
    ensures |s| == Len(Range(a, b))
    ensures forall i :: 0 <= i < |s| ==> s[i] == a + i
    decreases b - a
  {
    if a < b then [a] + Upto(a + 1, b) else []
  }

  /** Advancing a range: an exhausted range yields nothing and is left as it is. */
  function RangeNext(r: Range): (p: (Option<int>, Range))
    ensures p.0.Some? <==> Len(r) > 0
    ensures p.0.Some? ==> p.0.value == r.start && p.1 == Range(r.start + 1, r.end)
    ensures p.0.None? ==> p.1 == r
    ensures Len(p.1) == if Len(r) > 0 then Len(r) - 1 else 0
  {
    if r.start < r.end then (Some(r.start), Range(r.start + 1, r.end)) else (None, r)
  }

  /** Advancing an unbounded range always produces an item. */
  function RangeFromNext(r: RangeFrom): (p: (Option<int>, RangeFrom))
    ensures p.0 == Some(r.start)
    ensures p.1.start == r.start + 1
  {
    (Some(r.start), RangeFrom(r.start + 1))
  }

  /** What pulling up to `fuel` items from an iterator observed: the items, the
      iterator afterwards, and whether a `next` call came back empty. */
  datatype Pulled<Y, I> = Pulled(items: seq<Y>, iter: I, exhausted: bool)

  /** Calls `next` until it comes back empty or `fuel` items have been taken. */
  function Pull<Y, I>(next: I -> (Option<Y>, I), i: I, fuel: nat): (p: Pulled<Y, I>)
    ensures |p.items| <= fuel
    ensures !p.exhausted ==> |p.items| == fuel
    decreases fuel
  {
    if fuel == 0 then Pulled([], i, false)
    else
      match next(i)
      case (Some(y), i') =>
        var p := Pull(next, i', fuel - 1);
        p.(items := [y] + p.items)
      case (None, i') => Pulled([], i', true)
  }

  /** Iterating a range produces exactly its items in increasing order, after which
      the range is exhausted at its end. */
  lemma {:induction false} PullRange(a: int, b: int, fuel: nat)
    requires fuel > Len(Range(a, b))
    ensures Pull(RangeNext, Range(a, b), fuel) ==
            Pulled(Upto(a, b), Range(if a < b then b else a, b), true)
    decreases b - a
  {
    if a < b {
      PullRange(a + 1, b, fuel - 1);
    }
  }

  /** Taking `k` items from a range that has at least `k` leaves it `k` further on,
      not yet exhausted. */
  lemma {:induction false} PullRangePrefix(a: int, b: int, k: nat)
    requires k <= Len(Range(a, b))
    ensures Pull(RangeNext, Range(a, b), k) == Pulled(Upto(a, a + k), Range(a + k, b), false)
    decreases k
  {
    if k > 0 {
      PullRangePrefix(a + 1, b, k - 1);
    }
  }

  /** `a..b` is `a..m` followed by `m..b`. */
  lemma UptoSplit(a: int, m: int, b: int)
    requires a <= m <= b
    ensures Upto(a, b) == Upto(a, m) + Upto(m, b)
  {
    assert forall i :: 0 <= i < b - a ==> Upto(a, b)[i] == (Upto(a, m) + Upto(m, b))[i];
  }
}
