/** Optional values, results with an error, and an order-keeping filter-and-map over a sequence. */
module Wrappers {

  /** Rust's `Option<T>`. */
  datatype Option<+T> = None | Some(value: T)

  /** Rust's `Result<T, E>`; the block only ever propagates errors with `?`. */
  datatype Result<+T, +E> = Ok(value: T) | Err(error: E)

  /**
   * The elements `f` maps to `Some`, in order: the pure form of a loop that
   * pushes what each element yields, and of an order-keeping `.filter`.
   */
  function FilterMap<A, B>(xs: seq<A>, f: A -> Option<B>): (ys: seq<B>)
    ensures |ys| <= |xs|
  {
    if xs == [] then []
    else (match f(xs[0]) case Some(y) => [y] case None => []) + FilterMap(xs[1..], f)
  }

  /**
   * `FilterMap` distributes over concatenation: every element contributes
   * its own image (or nothing), and the contributions stay in order.
   */
  lemma {:induction false} FilterMapAppend<A, B>(xs: seq<A>, ys: seq<A>, f: A -> Option<B>)
    ensures FilterMap(xs + ys, f) == FilterMap(xs, f) + FilterMap(ys, f)
  {
    if xs != [] {
      assert (xs + ys)[1..] == xs[1..] + ys;
      FilterMapAppend(xs[1..], ys, f);
    } else {
      assert xs + ys == ys;
    }
  }

  /** An element is produced exactly when some input element maps to it. */
  lemma {:induction false} FilterMapMembership<A, B>(xs: seq<A>, f: A -> Option<B>, y: B)
    ensures y in FilterMap(xs, f) <==> exists x :: x in xs && f(x) == Some(y)
  {
    if xs != [] {
      FilterMapMembership(xs[1..], f, y);
      assert xs == [xs[0]] + xs[1..];
      assert forall x :: x in xs <==> x == xs[0] || x in xs[1..];
    }
  }
}
