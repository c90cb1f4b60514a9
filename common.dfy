/** Optional values and results shared by every module of the scraper model. */
module Common {

  /** Python's `X | None`. */
  datatype Option<+T> = None | Some(value: T)

  /** A computation that either yields a value or raises. */
  datatype Result<+T, +E> = Ok(value: T) | Err(error: E)

  /** Why a page-level step raised instead of returning. */
  datatype Failure =
    | FetchFailed(url: string)   // requests raised, or raise_for_status saw a non-2xx status
    | IndexError                 // a list index out of range (an empty totals row)

  /** The present values of `xs`, in order. */
  function Somes<T>(xs: seq<Option<T>>): (r: seq<T>)
    ensures |r| <= |xs|
    decreases |xs|
  {
    if xs == [] then []
    else Somes(xs[..|xs| - 1]) + (if xs[|xs| - 1].Some? then [xs[|xs| - 1].value] else [])
  }

  /** A value is among the present values exactly when some entry holds it. */
  lemma {:induction false} SomesMember<T>(xs: seq<Option<T>>, v: T)
    ensures v in Somes(xs) <==> Some(v) in xs
    decreases |xs|
  {
    if xs != [] {
      SomesMember(xs[..|xs| - 1], v);
      assert xs == xs[..|xs| - 1] + [xs[|xs| - 1]];
    }
  }

  /** The present values of two runs are those of the first followed by those of the second. */
  lemma {:induction false} SomesAppend<T>(xs: seq<Option<T>>, ys: seq<Option<T>>)
    ensures Somes(xs + ys) == Somes(xs) + Somes(ys)
    decreases |ys|
  {
    if ys == [] {
      assert xs + ys == xs;
    } else {
      var zs := xs + ys;
      assert zs[..|zs| - 1] == xs + ys[..|ys| - 1];
      assert zs[|zs| - 1] == ys[|ys| - 1];
      SomesAppend(xs, ys[..|ys| - 1]);
    }
  }
}
