/** Induction along the points of a run. */
module Runs {

  /** The steps of a run, and the points before, between and after them. */
  datatype Trace<E, P> = Trace(steps: seq<E>, points: seq<P>) {
    ghost function Last(): P
      requires |points| > 0
    {
      points[|points| - 1]
    }

    ghost function Then(e: E, p: P): Trace<E, P> { Trace(steps + [e], points + [p]) }
  }

  /** A property of the first point that every step keeps holds at every point. */
  lemma {:induction false} Along<P>(points: seq<P>, inv: P -> bool, n: nat)
    requires n < |points| && inv(points[0])
    requires forall i {:trigger points[i]} :: 0 < i < |points| && inv(points[i - 1]) ==> inv(points[i])
    ensures inv(points[n])
  {
    if n > 0 { Along(points, inv, n - 1); }
  }
}
