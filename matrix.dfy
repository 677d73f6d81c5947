/** `matMedian`: the median of the cells of a matrix. As written, its copy
    loop cannot be modelled as a terminating copy (see the two lemmas on the
    loop below); the corrected routine copies the cells in storage order,
    as `cpp_hle2` does, and takes their median. */
module MatrixMedian {
  import opened Selection
  import opened Shift

  /** The condition of the inner loop as written: it tests the column index
      i against the number of rows, so the row index j never ends it. */
  function InnerGuardAsWritten(rows: nat, i: nat, j: nat): bool {
    i < rows
  }

  /** The buffer slot the loop body writes mat(j, i) to, as written. */
  function SlotAsWritten(cols: nat, i: nat, j: nat): nat {
    i * cols + j
  }

  /** On a 1 x 1 matrix the inner loop admits every row index j, including
      j = 1 and beyond, which lie outside the matrix: it reads and writes
      past the end instead of stopping. */
  lemma InnerLoopRunsPastLastRow()
    ensures forall j: nat :: InnerGuardAsWritten(1, 0, j)
    ensures InnerGuardAsWritten(1, 0, 1) && SlotAsWritten(1, 0, 1) >= 1 * 1
  {
  }

  /** Even with the inner condition corrected to j < rows, the stride is the
      column count: on a 3 x 2 matrix, cell (2, 0) and cell (0, 1) both go
      to slot 2, and slot 5 of the six is never written. */
  lemma StrideCollides()
    ensures SlotAsWritten(2, 0, 2) == SlotAsWritten(2, 1, 0) == 2
    ensures forall i: nat, j: nat :: i < 2 && j < 3 ==> SlotAsWritten(2, i, j) != 5
  {
  }

  /** The corrected `matMedian`: the cells are copied in storage order, each
      to the one slot CellIndex gives it, and the median of the copy is
      returned. It fails exactly when the matrix has no cells. */
  method MatMedian(mat: array2<real>) returns (r: Result<real>)
    ensures r == MedianOf(ColumnMajor(mat, mat.Length1))
    ensures r.Err? <==> mat.Length0 == 0 || mat.Length1 == 0
  {
    var v := Flatten(mat);
    r := Median(v);
    ColumnMajorLength(mat, mat.Length1);
    if mat.Length0 > 0 && mat.Length1 > 0 {
      MulMonotone(1, mat.Length1, mat.Length0);
    }
  }

  /** The corrected copy holds every cell exactly once: cell (i, j) is at
      slot CellIndex(rows, i, j), and every slot holds the cell CellAt gives
      it. */
  lemma CopyHoldsEveryCell(mat: array2<real>)
    requires mat.Length0 > 0
    ensures |ColumnMajor(mat, mat.Length1)| == mat.Length0 * mat.Length1
    ensures forall i: nat, j: nat :: i < mat.Length0 && j < mat.Length1 ==>
      CellIndex(mat.Length0, i, j) < |ColumnMajor(mat, mat.Length1)| &&
      ColumnMajor(mat, mat.Length1)[CellIndex(mat.Length0, i, j)] == mat[i, j]
    ensures forall k :: 0 <= k < |ColumnMajor(mat, mat.Length1)| ==>
      CellAt(mat.Length0, k).0 < mat.Length0 && CellAt(mat.Length0, k).1 < mat.Length1 &&
      ColumnMajor(mat, mat.Length1)[k] == mat[CellAt(mat.Length0, k).0, CellAt(mat.Length0, k).1]
  {
    var rows, cols := mat.Length0, mat.Length1;
    ColumnMajorLength(mat, cols);
    assert cols * rows == rows * cols;
    CellIndexBijection(rows, cols);
    forall i: nat, j: nat | i < rows && j < cols
      ensures CellIndex(rows, i, j) < |ColumnMajor(mat, cols)| && ColumnMajor(mat, cols)[CellIndex(rows, i, j)] == mat[i, j]
    {
      ColumnMajorAt(mat, cols, i, j);
    }
  }
}
