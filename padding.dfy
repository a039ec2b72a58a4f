/** The `iter.chain(iter::repeat(default)).take(n)` idiom that fixes a
    list to a circuit's width: the elements in order, then defaults, with
    anything beyond the width dropped. */
module Padding {

  function PadTake<T>(xs: seq<T>, default: T, n: nat): (r: seq<T>)
    ensures |r| == n
    ensures forall i | 0 <= i < n :: r[i] == if i < |xs| then xs[i] else default
  {
    if n <= |xs| then xs[..n] else xs + seq(n - |xs|, _ => default)
  }
}
