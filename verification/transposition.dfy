/** The transposition of two extruder slots: the relabelling that maps slot `a`
    to slot `b`, slot `b` to slot `a`, and every other slot to itself. Both the
    wipe-matrix swap (0-based indices) and the custom G-code swap (1-based
    extruder ids) are this one relabelling applied to different key spaces. */
module Transposition {

  /** The image of `x` under the transposition (a b). */
  function Swap<T(==)>(a: T, b: T, x: T): (y: T)
    ensures y == b <==> x == a
    ensures y == a <==> x == b
    ensures x != a && x != b ==> y == x
  {
    if x == a then b else if x == b then a else x
  }

  /** A transposition undoes itself. */
  lemma SwapInvolutive<T>(a: T, b: T, x: T)
    ensures Swap(a, b, Swap(a, b, x)) == x
  {
  }

  /** Swapping a slot with itself relabels nothing. */
  lemma SwapSelf<T>(a: T, x: T)
    ensures Swap(a, a, x) == x
  {
  }

  /** (a b) and (b a) are the same relabelling. */
  lemma SwapSymmetric<T>(a: T, b: T, x: T)
    ensures Swap(a, b, x) == Swap(b, a, x)
  {
  }
}
