/** The concrete wipe-matrix swaps the repository's tests pin down. */
module WipeMatrixCases {
  import opened Transposition
  import opened WipeMatrix

  /** Swapping filaments 0 and 2 of the 3x3 matrix 1..9 reverses it. */
  method SwapThreeByThree() returns (r: seq<real>)
    ensures r == [9.0, 8.0, 7.0, 6.0, 5.0, 4.0, 3.0, 2.0, 1.0]
  {
    var m := [1.0, 2.0, 3.0, 4.0, 5.0, 6.0, 7.0, 8.0, 9.0];
    r := SwapWipeMatrix(m, 3, 0, 2);
    assert SwapApplies(m, 3, 0, 2);
    ThreeByThreeEntries(m, r);
  }

  /** The nine entries of the 3x3 relabelling by (0 2). */
  lemma ThreeByThreeEntries(m: seq<real>, r: seq<real>)
    requires m == [1.0, 2.0, 3.0, 4.0, 5.0, 6.0, 7.0, 8.0, 9.0]
    requires r == Relabel(m, 3, 0, 2)
    ensures r == [9.0, 8.0, 7.0, 6.0, 5.0, 4.0, 3.0, 2.0, 1.0]
  {
  }

  /** Swapping a filament with itself leaves the matrix as it was. */
  method SwapSameIndex() returns (r: seq<real>)
    ensures r == [1.0, 2.0, 3.0, 4.0, 5.0, 6.0, 7.0, 8.0, 9.0]
  {
    r := SwapWipeMatrix([1.0, 2.0, 3.0, 4.0, 5.0, 6.0, 7.0, 8.0, 9.0], 3, 1, 1);
  }

  /** Swapping the two filaments of a 2x2 matrix exchanges the off-diagonal
      costs and keeps the diagonal. */
  method SwapTwoByTwo() returns (r: seq<real>)
    ensures r == [0.0, 20.0, 10.0, 0.0]
  {
    var m := [0.0, 10.0, 20.0, 0.0];
    r := SwapWipeMatrix(m, 2, 0, 1);
    assert SwapApplies(m, 2, 0, 1);
    assert r[0] == At(r, 2, 0, 0) == At(m, 2, 1, 1);
    assert r[1] == At(r, 2, 0, 1) == At(m, 2, 1, 0);
    assert r[2] == At(r, 2, 1, 0) == At(m, 2, 0, 1);
    assert r[3] == At(r, 2, 1, 1) == At(m, 2, 0, 0);
  }
}
