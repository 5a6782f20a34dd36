/**
  The extremes of some values, and what a loop that looks for them knows on its way.
 */
module MinMax {
  function MinOf(vs: seq<int>): int {
    if vs == [] then 0
    else if |vs| == 1 || vs[0] < MinOf(vs[1..]) then vs[0]
    else MinOf(vs[1..])
  }

  function MaxOf(vs: seq<int>): int {
    if vs == [] then 0
    else if |vs| == 1 || vs[0] > MaxOf(vs[1..]) then vs[0]
    else MaxOf(vs[1..])
  }

  /** The extremes are values, and bound all of them. */
  lemma {:induction false} Extremes(vs: seq<int>)
    requires vs != []
    ensures forall k :: 0 <= k < |vs| ==> MinOf(vs) <= vs[k] <= MaxOf(vs)
    ensures MinOf(vs) in vs && MaxOf(vs) in vs
  {
    if |vs| > 1 {
      Extremes(vs[1..]);
      forall k | 0 <= k < |vs|
        ensures MinOf(vs) <= vs[k] <= MaxOf(vs)
      {
        if k > 0 { assert vs[k] == vs[1..][k - 1]; }
      }
    }
  }

  /** Taking the remaining values into account will turn lo and hi into the extremes. */
  ghost predicate Narrowed(lo: int, hi: int, rest: seq<int>, min: int, max: int) {
    && min == (if rest != [] && MinOf(rest) < lo then MinOf(rest) else lo)
    && max == (if rest != [] && MaxOf(rest) > hi then MaxOf(rest) else hi)
  }

  lemma NarrowedStep(lo: int, hi: int, v: int, rest: seq<int>, min: int, max: int)
    requires Narrowed(lo, hi, [v] + rest, min, max)
    ensures Narrowed(if v < lo then v else lo, if v > hi then v else hi, rest, min, max)
  {
    assert ([v] + rest)[1..] == rest;
  }

  lemma NarrowedStart(v: int, rest: seq<int>)
    ensures Narrowed(v, v, [v] + rest, MinOf([v] + rest), MaxOf([v] + rest))
  {
    Extremes([v] + rest);
    assert ([v] + rest)[0] == v;
  }

  lemma NarrowedEnd(lo: int, hi: int, min: int, max: int)
    requires Narrowed(lo, hi, [], min, max)
    ensures lo == min && hi == max
  {
  }
}
