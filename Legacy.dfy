/** The single-file Python 2 edition of the library, `wulib.py`. Its `unique` is the
    same generator as the package's and is modelled once, by `Core.FirstOfEach`. */
module Legacy {
  import opened Wrappers
  import Core

  /** `chunks(l, n)`: the slices `l[i:i+n]` for `i` in `range(0, len(l), n)`. A zero
      size is a zero step, which `range()` refuses; a negative size gives an empty range.
      For a positive size the chunks are consecutive, `ceil(len(l) / n)` of them, all of
      size `n` but the last, which holds between one and `n` items, and they add up to `l`. */
  function Chunks<T>(l: seq<T>, n: int): (r: Result<seq<seq<T>>, Core.RangeError>)
    ensures r.Failure? <==> n == 0
    ensures n < 0 ==> r == Success([])
    ensures n >= 1 ==>
              && r.Success?
              && Core.Flatten(r.value) == l
              && |r.value| * n >= |l| && (r.value == [] || (|r.value| - 1) * n < |l|)
              && (forall k :: 0 <= k < |r.value| ==> 1 <= |r.value[k]| <= n)
              && (forall k :: 0 <= k < |r.value| - 1 ==> |r.value[k]| == n)
  {
    if n >= 1 then Core.ChunksPartition(l, n); Core.Chunks(l, n, None)
    else Core.Chunks(l, n, None)
  }
}
