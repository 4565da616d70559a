/** Random-access datasets and the cursor that walks one from the start. */
module Datasets {
  import opened Wrappers

  /** A dataset answers `get(index)` with an item or nothing, and reports a
      length; nothing ties the two together. */
  datatype Dataset<I> = Dataset(get: nat -> Option<I>, len: nat)
  {
    /** A cursor at the start of the dataset. */
    method Iter() returns (it: DatasetIterator<I>)
      ensures fresh(it) && it.Valid()
      ensures it.dataset == this && it.current == 0 && it.yielded == []
    {
      it := new DatasetIterator(this);
    }
  }

  /** What the first `n` calls of `next` return, in order: `get` at each
      index from 0 to `n − 1`, whatever those answers are. */
  function Yielded<I>(dataset: Dataset<I>, n: nat): (items: seq<Option<I>>)
    ensures |items| == n
    ensures forall k :: 0 <= k < n ==> items[k] == dataset.get(k)
  {
    if n == 0 then [] else Yielded(dataset, n - 1) + [dataset.get(n - 1)]
  }

  /** Later calls extend, and never revise, what earlier calls returned. */
  lemma {:induction false} YieldedPrefix<I>(dataset: Dataset<I>, n: nat, m: nat)
    requires n <= m
    ensures Yielded(dataset, n) == Yielded(dataset, m)[..n]
    decreases m
  {
    if n < m {
      YieldedPrefix(dataset, n, m - 1);
      assert Yielded(dataset, m)[..m - 1] == Yielded(dataset, m - 1);
    }
  }

  /** The cursor does not stop at the first missing item: over a dataset
      with nothing at index 0 and an item at index 1, the first call gives
      nothing and the second gives the item. */
  lemma NotFused()
    ensures var dataset := Dataset((k: nat) => if k == 0 then None else Some(k), 2);
      Yielded(dataset, 2) == [None, Some(1)]
  {
    var dataset := Dataset((k: nat) => if k == 0 then None else Some(k), 2);
    assert Yielded(dataset, 1) == [None];
  }

  class DatasetIterator<I> {
    var current: nat
    const dataset: Dataset<I>
    /** The items returned so far, oldest first. */
    ghost var yielded: seq<Option<I>>

    ghost predicate Valid()
      reads this
    {
      yielded == Yielded(dataset, current)
    }

    constructor (dataset: Dataset<I>)
      ensures Valid()
      ensures this.dataset == dataset && current == 0 && yielded == []
    {
      this.dataset := dataset;
      current := 0;
      yielded := [];
    }

    /** Returns the item at the cursor, possibly none, and moves the cursor
        one step whatever the answer was. */
    method Next() returns (item: Option<I>)
      requires Valid()
      modifies this
      ensures Valid()
      ensures item == dataset.get(old(current))
      ensures current == old(current) + 1
      ensures yielded == old(yielded) + [item]
    {
      item := dataset.get(current);
      current := current + 1;
      yielded := yielded + [item];
    }
  }
}
