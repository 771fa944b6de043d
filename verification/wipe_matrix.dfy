/** The wipe-tower cost matrix: an n-by-n table stored row-major in a flat
    sequence, entry (i, j) being the cost of switching from filament i to
    filament j. The element type is a parameter because entries are only ever
    moved, never computed with. */
module WipeMatrix {
  import opened Transposition
  import opened SeqExchange

  /** Flat position of entry (i, j) in a row-major n-by-n matrix. */
  function Cell(n: nat, i: nat, j: nat): nat
  {
    i * n + j
  }

  /** Multiplication by a natural number is monotone. */
  lemma MulMonotone(x: nat, y: nat, n: nat)
    requires x <= y
    ensures x * n <= y * n
  {
  }

  /** Every entry of an n-by-n matrix lies inside the flat buffer. */
  lemma CellInRange(n: nat, i: nat, j: nat)
    requires i < n && j < n
    ensures Cell(n, i, j) < n * n
  {
    MulMonotone(i + 1, n, n);
    assert (i + 1) * n == i * n + n;
  }

  /** Distinct entries occupy distinct flat positions. */
  lemma CellInjective(n: nat, i: nat, j: nat, i': nat, j': nat)
    requires j < n && j' < n
    ensures Cell(n, i, j) == Cell(n, i', j') <==> i == i' && j == j'
  {
    if i < i' {
      MulMonotone(i + 1, i', n);
      assert (i + 1) * n == i * n + n;
    } else if i' < i {
      MulMonotone(i' + 1, i, n);
      assert (i' + 1) * n == i' * n + n;
    }
  }

  /** Every flat position of an n-by-n buffer is the position of some entry. */
  lemma CellCover(n: nat, k: nat)
    requires k < n * n
    ensures k / n < n && k % n < n
    ensures Cell(n, k / n, k % n) == k
  {
    assert n > 0;
    if k / n >= n {
      MulMonotone(n, k / n, n);
      assert false;
    }
  }

  /** Entry (i, j) of the row-major n-by-n matrix `m`. */
  function At<T>(m: seq<T>, n: nat, i: nat, j: nat): T
    requires |m| == n * n && i < n && j < n
  {
    CellInRange(n, i, j);
    m[Cell(n, i, j)]
  }

  /** Two n-by-n matrices that agree entry by entry are equal. */
  lemma {:induction false} MatrixExtensional<T>(m: seq<T>, m': seq<T>, n: nat)
    requires |m| == n * n && |m'| == n * n
    requires forall i, j :: 0 <= i < n && 0 <= j < n ==> At(m, n, i, j) == At(m', n, i, j)
    ensures m == m'
  {
    forall k | 0 <= k < |m|
      ensures m[k] == m'[k]
    {
      CellCover(n, k);
      assert At(m, n, k / n, k % n) == At(m', n, k / n, k % n);
    }
  }

  /** The guard of the swap: the swap acts only when the two indices differ,
      both lie inside the matrix, and the buffer really holds n * n entries.
      Otherwise it leaves the matrix alone. */
  predicate SwapApplies<T>(m: seq<T>, n: nat, a: nat, b: nat)
  {
    !(a == b || n * n != |m| || a >= n || b >= n)
  }

  /** `r` is `m` with filaments `a` and `b` relabelled: the cost from i to j in
      `r` is the cost from (a b)(i) to (a b)(j) in `m`. */
  predicate IsRelabelling<T(==)>(m: seq<T>, r: seq<T>, n: nat, a: nat, b: nat)
    requires |m| == n * n && a < n && b < n
  {
    |r| == |m| &&
    forall i, j :: 0 <= i < n && 0 <= j < n ==>
      At(r, n, i, j) == At(m, n, Swap(a, b, i), Swap(a, b, j))
  }

  /** Swapping rows (a, b) at position (i, j) reads row (a b)(i) in column j,
      for the columns already processed. */
  lemma RowExchangeCell(n: nat, a: nat, b: nat, c: nat, i: nat, j: nat)
    requires a < n && b < n && c < n && i < n && j < n
    ensures Swap(Cell(n, a, c), Cell(n, b, c), Cell(n, i, j))
         == Cell(n, if j == c then Swap(a, b, i) else i, j)
  {
    CellInjective(n, a, c, i, j);
    CellInjective(n, b, c, i, j);
    CellInjective(n, a, c, b, c);
  }

  /** Swapping columns (a, b) in row c at position (i, j) reads column
      (a b)(j) of row i when i is that row. */
  lemma ColumnExchangeCell(n: nat, a: nat, b: nat, c: nat, i: nat, j: nat)
    requires a < n && b < n && c < n && i < n && j < n
    ensures Swap(Cell(n, c, a), Cell(n, c, b), Cell(n, i, j))
         == Cell(n, i, if i == c then Swap(a, b, j) else j)
  {
    CellInjective(n, c, a, i, j);
    CellInjective(n, c, b, i, j);
    CellInjective(n, c, a, c, b);
  }

  /** Entry k of the relabelled matrix: the old entry whose row and column are
      the images under (a b) of the row and column of k. */
  function RelabelledEntry<T>(m: seq<T>, n: nat, a: nat, b: nat, k: nat): T
    requires |m| == n * n && a < n && b < n && k < |m|
  {
    CellCover(n, k);
    At(m, n, Swap(a, b, k / n), Swap(a, b, k % n))
  }

  /** Row and column of the flat position of entry (i, j). */
  lemma CellDivMod(n: nat, i: nat, j: nat)
    requires i < n && j < n
    ensures Cell(n, i, j) / n == i && Cell(n, i, j) % n == j
  {
    CellInRange(n, i, j);
    CellCover(n, Cell(n, i, j));
    CellInjective(n, i, j, Cell(n, i, j) / n, Cell(n, i, j) % n);
  }

  /** The matrix `m` with filaments `a` and `b` relabelled, built position by
      position from the flat buffer. */
  function Relabel<T>(m: seq<T>, n: nat, a: nat, b: nat): (r: seq<T>)
    requires |m| == n * n && a < n && b < n
    ensures IsRelabelling(m, r, n, a, b)
  {
    var r := seq(|m|, k requires 0 <= k < |m| => RelabelledEntry(m, n, a, b, k));
    RelabelEntries(m, r, n, a, b);
    r
  }

  /** The position-by-position construction of `Relabel` is a relabelling. */
  lemma RelabelEntries<T>(m: seq<T>, r: seq<T>, n: nat, a: nat, b: nat)
    requires |m| == n * n && a < n && b < n && |r| == |m|
    requires forall k :: 0 <= k < |m| ==> r[k] == RelabelledEntry(m, n, a, b, k)
    ensures IsRelabelling(m, r, n, a, b)
  {
    forall i, j | 0 <= i < n && 0 <= j < n
      ensures At(r, n, i, j) == At(m, n, Swap(a, b, i), Swap(a, b, j))
    {
      CellInRange(n, i, j);
      CellDivMod(n, i, j);
      var k := Cell(n, i, j);
      assert At(r, n, i, j) == r[k] == RelabelledEntry(m, n, a, b, k);
    }
  }

  /** A relabelling is determined by the matrix and the pair of indices. */
  lemma RelabellingUnique<T>(m: seq<T>, r: seq<T>, n: nat, a: nat, b: nat)
    requires |m| == n * n && a < n && b < n
    requires IsRelabelling(m, r, n, a, b)
    ensures r == Relabel(m, n, a, b)
  {
    MatrixExtensional(r, Relabel(m, n, a, b), n);
  }

  /** Relabelling twice by the same transposition gives back the original
      matrix. */
  lemma RelabelInvolutive<T>(m: seq<T>, n: nat, a: nat, b: nat)
    requires |m| == n * n && a < n && b < n
    ensures Relabel(Relabel(m, n, a, b), n, a, b) == m
  {
    var r := Relabel(m, n, a, b);
    var r' := Relabel(r, n, a, b);
    forall i, j | 0 <= i < n && 0 <= j < n
      ensures At(r', n, i, j) == At(m, n, i, j)
    {
      SwapInvolutive(a, b, i);
      SwapInvolutive(a, b, j);
    }
    MatrixExtensional(r', m, n);
  }

  /** Relabelling a filament with itself changes nothing. */
  lemma RelabelSelf<T>(m: seq<T>, n: nat, a: nat)
    requires |m| == n * n && a < n
    ensures Relabel(m, n, a, a) == m
  {
    MatrixExtensional(Relabel(m, n, a, a), m, n);
  }

  /** Swapping (a, b) and swapping (b, a) give the same matrix. */
  lemma RelabelSymmetric<T>(m: seq<T>, n: nat, a: nat, b: nat)
    requires |m| == n * n && a < n && b < n
    ensures Relabel(m, n, a, b) == Relabel(m, n, b, a)
  {
  }

  /** Costs between two filaments that both differ from `a` and `b` are kept,
      and so is every cost that does not involve rows or columns a and b. */
  lemma RelabelKeepsOthers<T>(m: seq<T>, n: nat, a: nat, b: nat, i: nat, j: nat)
    requires |m| == n * n && a < n && b < n
    requires i < n && j < n && i != a && i != b && j != a && j != b
    ensures At(Relabel(m, n, a, b), n, i, j) == At(m, n, i, j)
  {
  }

  /** Row a of the relabelled matrix is row b of the original read with
      columns a and b exchanged, and the reverse. */
  lemma RelabelMovesRows<T>(m: seq<T>, n: nat, a: nat, b: nat, j: nat)
    requires |m| == n * n && a < n && b < n && j < n
    ensures At(Relabel(m, n, a, b), n, a, j) == At(m, n, b, Swap(a, b, j))
    ensures At(Relabel(m, n, a, b), n, b, j) == At(m, n, a, Swap(a, b, j))
  {
  }

  /** One iteration of the row pass: exchanging entry (a, c) with entry (b, c)
      relabels rows a and b in column c and nowhere else. */
  lemma RowExchangeStep<T>(prev: seq<T>, r: seq<T>, n: nat, a: nat, b: nat, c: nat)
    requires |prev| == n * n && a < n && b < n && c < n
    requires Cell(n, a, c) < |prev| && Cell(n, b, c) < |prev|
    requires r == Exchange(prev, Cell(n, a, c), Cell(n, b, c))
    ensures |r| == n * n
    ensures forall i, j :: 0 <= i < n && 0 <= j < n ==>
      At(r, n, i, j) == At(prev, n, if j == c then Swap(a, b, i) else i, j)
  {
    forall i, j | 0 <= i < n && 0 <= j < n
      ensures At(r, n, i, j) == At(prev, n, if j == c then Swap(a, b, i) else i, j)
    {
      CellInRange(n, i, j);
      RowExchangeCell(n, a, b, c, i, j);
    }
  }

  /** One iteration of the column pass: exchanging entry (c, a) with entry
      (c, b) relabels columns a and b in row c and nowhere else. */
  lemma ColumnExchangeStep<T>(prev: seq<T>, r: seq<T>, n: nat, a: nat, b: nat, c: nat)
    requires |prev| == n * n && a < n && b < n && c < n
    requires Cell(n, c, a) < |prev| && Cell(n, c, b) < |prev|
    requires r == Exchange(prev, Cell(n, c, a), Cell(n, c, b))
    ensures |r| == n * n
    ensures forall i, j :: 0 <= i < n && 0 <= j < n ==>
      At(r, n, i, j) == At(prev, n, i, if i == c then Swap(a, b, j) else j)
  {
    forall i, j | 0 <= i < n && 0 <= j < n
      ensures At(r, n, i, j) == At(prev, n, i, if i == c then Swap(a, b, j) else j)
    {
      CellInRange(n, i, j);
      ColumnExchangeCell(n, a, b, c, i, j);
    }
  }

  /** The wipe-matrix swap: exchange rows `idxA` and `idxB`, then columns
      `idxA` and `idxB`, unless the guard says the request is degenerate or
      does not fit the buffer, in which case the matrix is returned unchanged. */
  method SwapWipeMatrix<T>(matrix: seq<T>, n: nat, idxA: nat, idxB: nat) returns (r: seq<T>)
    ensures |r| == |matrix|
    ensures !SwapApplies(matrix, n, idxA, idxB) ==> r == matrix
    ensures SwapApplies(matrix, n, idxA, idxB) ==> r == Relabel(matrix, n, idxA, idxB)
  {
    if idxA == idxB || n * n != |matrix| || idxA >= n || idxB >= n {
      return matrix;
    }
    // Swap rows
    r := matrix;
    var col := 0;
    while col < n
      invariant col <= n && |r| == n * n
      invariant forall i, j :: 0 <= i < n && 0 <= j < n ==>
        At(r, n, i, j) == At(matrix, n, if j < col then Swap(idxA, idxB, i) else i, j)
    {
      CellInRange(n, idxA, col);
      CellInRange(n, idxB, col);
      var prev := r;
      r := Exchange(r, Cell(n, idxA, col), Cell(n, idxB, col));
      RowExchangeStep(prev, r, n, idxA, idxB, col);
      col := col + 1;
    }
    ghost var rowsSwapped := r;
    // Swap columns
    var row := 0;
    while row < n
      invariant row <= n && |r| == n * n
      invariant forall i, j :: 0 <= i < n && 0 <= j < n ==>
        At(r, n, i, j) == At(rowsSwapped, n, i, if i < row then Swap(idxA, idxB, j) else j)
    {
      CellInRange(n, row, idxA);
      CellInRange(n, row, idxB);
      var prev := r;
      r := Exchange(r, Cell(n, row, idxA), Cell(n, row, idxB));
      ColumnExchangeStep(prev, r, n, idxA, idxB, row);
      row := row + 1;
    }
    RelabellingUnique(matrix, r, n, idxA, idxB);
  }

  /** Running the swap twice with the same arguments returns the original
      matrix, whether or not the guard lets the swap act. */
  method SwapWipeMatrixTwice<T>(matrix: seq<T>, n: nat, idxA: nat, idxB: nat) returns (r: seq<T>)
    ensures r == matrix
  {
    var once := SwapWipeMatrix(matrix, n, idxA, idxB);
    r := SwapWipeMatrix(once, n, idxA, idxB);
    if SwapApplies(matrix, n, idxA, idxB) {
      RelabelInvolutive(matrix, n, idxA, idxB);
    }
  }
}
