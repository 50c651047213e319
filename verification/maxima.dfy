/** Maxima of lists of scores, as the scorer takes them. */
module Maxima {

  function RMax(a: real, b: real): (m: real)
    ensures m >= a && m >= b && (m == a || m == b)
  {
    if a >= b then a else b
  }

  /** The largest element, what `res.sort(reverse=True)` puts at index 0. */
  function Max(xs: seq<real>): (m: real)
    requires |xs| > 0
    ensures m in xs
    ensures forall i :: 0 <= i < |xs| ==> xs[i] <= m
    decreases |xs|
  {
    if |xs| == 1 then xs[0] else RMax(xs[0], Max(xs[1..]))
  }

  /** The running maximum `acc = max(acc, x)` over `xs`. */
  function MaxFold(acc: real, xs: seq<real>): (m: real)
    ensures m >= acc
    ensures forall i :: 0 <= i < |xs| ==> xs[i] <= m
    ensures m == acc || m in xs
    decreases |xs|
  {
    if |xs| == 0 then acc else MaxFold(RMax(acc, xs[0]), xs[1..])
  }
}
