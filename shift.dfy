/** `cpp_hle2`: the two-sample Hodges-Lehmann shift estimator. A matrix
    with |y| rows and |x| columns receives y[i] - x[j] in cell (i, j); its
    cells are copied into a flat buffer in storage order (column by column,
    the order of an R matrix) and the median of that buffer is returned. */
module Shift {
  import opened Orders
  import opened Selection

  /** The position of cell (i, j) of a matrix with `rows` rows when its
      cells are laid out column by column. */
  function CellIndex(rows: nat, i: nat, j: nat): nat {
    i + j * rows
  }

  /** The cell stored at position k, for a matrix with `rows` > 0 rows. */
  function CellAt(rows: nat, k: nat): (cell: (nat, nat))
    requires rows > 0
  {
    (k % rows, k / rows)
  }

  lemma MulMonotone(a: nat, b: nat, c: nat)
    requires a <= b
    ensures a * c <= b * c
  {
    assert b * c == a * c + (b - a) * c;
  }

  /** Column j occupies the positions [j * rows, (j + 1) * rows). */
  lemma CellWithinColumn(rows: nat, i: nat, j: nat)
    requires i < rows
    ensures j * rows <= CellIndex(rows, i, j) < (j + 1) * rows
  {
    assert (j + 1) * rows == j * rows + rows;
  }

  /** Every cell of a rows x cols matrix has a position inside the buffer. */
  lemma CellIndexInRange(rows: nat, cols: nat, i: nat, j: nat)
    requires i < rows && j < cols
    ensures CellIndex(rows, i, j) < rows * cols
  {
    CellWithinColumn(rows, i, j);
    MulMonotone(j + 1, cols, rows);
  }

  /** No two cells share a position. */
  lemma CellIndexInjective(rows: nat, i1: nat, j1: nat, i2: nat, j2: nat)
    requires i1 < rows && i2 < rows
    requires CellIndex(rows, i1, j1) == CellIndex(rows, i2, j2)
    ensures i1 == i2 && j1 == j2
  {
    CellWithinColumn(rows, i1, j1);
    CellWithinColumn(rows, i2, j2);
    if j1 < j2 {
      MulMonotone(j1 + 1, j2, rows);
    } else if j2 < j1 {
      MulMonotone(j2 + 1, j1, rows);
    }
  }

  /** CellAt undoes CellIndex. */
  lemma CellAtOfCellIndex(rows: nat, i: nat, j: nat)
    requires i < rows
    ensures CellAt(rows, CellIndex(rows, i, j)) == (i, j)
  {
    var k := CellIndex(rows, i, j);
    assert k == (k / rows) * rows + k % rows;
    CellIndexInjective(rows, i, j, k % rows, k / rows);
  }

  /** CellIndex undoes CellAt, and every position of a rows x cols buffer
      comes from a cell of the matrix. */
  lemma CellIndexOfCellAt(rows: nat, cols: nat, k: nat)
    requires rows > 0 && k < rows * cols
    ensures CellAt(rows, k).0 < rows && CellAt(rows, k).1 < cols
    ensures CellIndex(rows, CellAt(rows, k).0, CellAt(rows, k).1) == k
  {
    var j := k / rows;
    assert k == j * rows + k % rows;
    if cols <= j {
      MulMonotone(cols, j, rows);
    }
  }

  /** Column-major layout is a bijection from the cells of a rows x cols
      matrix onto the positions [0, rows * cols): CellAt undoes CellIndex
      on every cell, and CellIndex undoes CellAt on every position. */
  lemma CellIndexBijection(rows: nat, cols: nat)
    requires rows > 0
    ensures forall i: nat, j: nat :: i < rows && j < cols ==>
      CellIndex(rows, i, j) < rows * cols && CellAt(rows, CellIndex(rows, i, j)) == (i, j)
    ensures forall k: nat :: k < rows * cols ==>
      CellAt(rows, k).0 < rows && CellAt(rows, k).1 < cols && CellIndex(rows, CellAt(rows, k).0, CellAt(rows, k).1) == k
  {
    forall i: nat, j: nat | i < rows && j < cols
      ensures CellIndex(rows, i, j) < rows * cols && CellAt(rows, CellIndex(rows, i, j)) == (i, j)
    {
      CellIndexInRange(rows, cols, i, j);
      CellAtOfCellIndex(rows, i, j);
    }
    forall k: nat | k < rows * cols
      ensures CellAt(rows, k).0 < rows && CellAt(rows, k).1 < cols && CellIndex(rows, CellAt(rows, k).0, CellAt(rows, k).1) == k
    {
      CellIndexOfCellAt(rows, cols, k);
    }
  }

  /** y[i] - c for every i, in order: one column of the matrix. */
  function Column(y: seq<real>, c: real): (col: seq<real>) {
    seq(|y|, i requires 0 <= i < |y| => y[i] - c)
  }

  /** The reference contents of the buffer: column j, holding y[i] - x[j]
      for every i, follows column j - 1. */
  function Differences(x: seq<real>, y: seq<real>): (d: seq<real>)
    decreases |x|
  {
    if x == [] then [] else Differences(x[..|x| - 1], y) + Column(y, x[|x| - 1])
  }

  lemma {:induction false} DifferencesLength(x: seq<real>, y: seq<real>)
    ensures |Differences(x, y)| == |y| * |x|
  {
    if x != [] {
      DifferencesLength(x[..|x| - 1], y);
      assert |y| * |x| == |y| * (|x| - 1) + |y|;
    }
  }

  /** The entry for the pair (i, j) sits at the column-major position of
      cell (i, j). */
  lemma {:induction false} DifferencesAt(x: seq<real>, y: seq<real>, i: nat, j: nat)
    requires i < |y| && j < |x|
    ensures CellIndex(|y|, i, j) < |Differences(x, y)|
    ensures Differences(x, y)[CellIndex(|y|, i, j)] == y[i] - x[j]
  {
    var n := |x| - 1;
    DifferencesLength(x, y);
    DifferencesLength(x[..n], y);
    CellIndexInRange(|y|, |x|, i, j);
    if j < n {
      DifferencesAt(x[..n], y, i, j);
    } else {
      assert |y| * n == n * |y|;
    }
  }

  /** The buffer holds exactly the differences y[i] - x[j]: position k
      holds the difference of the cell CellAt(k), and each cell appears at
      exactly one position. */
  lemma DifferencesAreThePairs(x: seq<real>, y: seq<real>)
    requires |y| > 0
    ensures |Differences(x, y)| == |y| * |x|
    ensures forall k :: 0 <= k < |Differences(x, y)| ==>
      CellAt(|y|, k).0 < |y| && CellAt(|y|, k).1 < |x| &&
      Differences(x, y)[k] == y[CellAt(|y|, k).0] - x[CellAt(|y|, k).1]
    ensures forall i: nat, j: nat :: i < |y| && j < |x| ==>
      CellIndex(|y|, i, j) < |Differences(x, y)| && Differences(x, y)[CellIndex(|y|, i, j)] == y[i] - x[j]
  {
    DifferencesLength(x, y);
    CellIndexBijection(|y|, |x|);
    forall i: nat, j: nat | i < |y| && j < |x|
      ensures CellIndex(|y|, i, j) < |Differences(x, y)| && Differences(x, y)[CellIndex(|y|, i, j)] == y[i] - x[j]
    {
      DifferencesAt(x, y, i, j);
    }
  }

  /** The buffer is empty exactly when one of the samples is. */
  lemma DifferencesEmpty(x: seq<real>, y: seq<real>)
    ensures |Differences(x, y)| == 0 <==> x == [] || y == []
  {
    DifferencesLength(x, y);
    if x != [] && y != [] {
      MulMonotone(1, |x|, |y|);
    }
  }

  lemma {:induction false} ColumnOfConcat(a: seq<real>, b: seq<real>, c: real)
    ensures Column(a + b, c) == Column(a, c) + Column(b, c)
  {
  }

  lemma {:induction false} DifferencesOfConcat(a: seq<real>, b: seq<real>, y: seq<real>)
    ensures Differences(a + b, y) == Differences(a, y) + Differences(b, y)
    decreases |b|
  {
    if b == [] {
      assert a + b == a;
    } else {
      var n := |b| - 1;
      var ab := a + b;
      assert ab[..|ab| - 1] == a + b[..n];
      assert ab[|ab| - 1] == b[n];
      DifferencesOfConcat(a, b[..n], y);
      assert Differences(ab, y) == (Differences(a, y) + Differences(b[..n], y)) + Column(y, b[n]);
      assert Differences(b, y) == Differences(b[..n], y) + Column(y, b[n]);
    }
  }

  /** Taking out the element at m takes its difference out of the column. */
  lemma ColumnWithout(z: seq<real>, m: int, c: real)
    requires 0 <= m < |z|
    ensures multiset(Column(z, c)) == multiset(Column(z[..m] + z[m + 1..], c)) + multiset{z[m] - c}
  {
    var pre, post := z[..m], z[m + 1..];
    assert z == pre + ([z[m]] + post);
    ColumnOfConcat(pre, [z[m]] + post, c);
    ColumnOfConcat([z[m]], post, c);
    ColumnOfConcat(pre, post, c);
    assert Column([z[m]], c) == [z[m] - c];
  }

  /** Reordering y reorders each column and leaves its multiset alone. */
  lemma {:induction false} ColumnIgnoresOrder(y: seq<real>, z: seq<real>, c: real)
    requires multiset(y) == multiset(z)
    ensures multiset(Column(y, c)) == multiset(Column(z, c))
  {
    if y != [] {
      var m := SameElementsWithout(y, z);
      ColumnIgnoresOrder(y[1..], z[..m] + z[m + 1..], c);
      ColumnWithout(z, m, c);
      ColumnWithout(y, 0, c);
      assert y[..0] + y[1..] == y[1..];
    }
  }

  /** Reordering y leaves the multiset of differences alone. */
  lemma {:induction false} DifferencesIgnoreOrderOfY(x: seq<real>, y: seq<real>, z: seq<real>)
    requires multiset(y) == multiset(z)
    ensures multiset(Differences(x, y)) == multiset(Differences(x, z))
    decreases |x|
  {
    if x != [] {
      DifferencesIgnoreOrderOfY(x[..|x| - 1], y, z);
      ColumnIgnoresOrder(y, z, x[|x| - 1]);
    }
  }

  /** Taking out the observation at m takes its column out of the buffer. */
  lemma DifferencesWithout(w: seq<real>, m: int, y: seq<real>)
    requires 0 <= m < |w|
    ensures multiset(Differences(w, y)) == multiset(Differences(w[..m] + w[m + 1..], y)) + multiset(Column(y, w[m]))
  {
    var pre, post := w[..m], w[m + 1..];
    assert w == pre + ([w[m]] + post);
    DifferencesOfConcat(pre, [w[m]] + post, y);
    DifferencesOfConcat([w[m]], post, y);
    DifferencesOfConcat(pre, post, y);
    assert Differences([w[m]], y) == Column(y, w[m]) by {
      assert [w[m]][..0] == [];
    }
  }

  /** Reordering x permutes whole columns and leaves the multiset of
      differences alone. */
  lemma {:induction false} DifferencesIgnoreOrderOfX(x: seq<real>, w: seq<real>, y: seq<real>)
    requires multiset(x) == multiset(w)
    ensures multiset(Differences(x, y)) == multiset(Differences(w, y))
    decreases |x|
  {
    if x == [] {
      assert |multiset(w)| == 0;
    } else {
      var n := |x| - 1;
      assert w[0..|w|] == w;
      var m := InPrefixOrSuffix(w, 0, |w|, x[n]);
      MultisetWithout(w, m);
      MultisetWithout(x, n);
      assert x[..n] + x[n + 1..] == x[..n];
      DifferencesIgnoreOrderOfX(x[..n], w[..m] + w[m + 1..], y);
      DifferencesWithout(w, m, y);
    }
  }

  /** Reordering either sample never changes the estimate. */
  lemma Hle2IgnoresOrder(x: seq<real>, w: seq<real>, y: seq<real>, z: seq<real>)
    requires multiset(x) == multiset(w) && multiset(y) == multiset(z)
    ensures MedianOf(Differences(x, y)) == MedianOf(Differences(w, z))
  {
    DifferencesIgnoreOrderOfX(x, w, y);
    DifferencesIgnoreOrderOfY(w, y, z);
    MedianIgnoresOrder(Differences(x, y), Differences(w, z));
  }

  /** The cells of a matrix in storage order: column j after column j - 1. */
  ghost function ColumnMajor(mat: array2<real>, cols: nat): (s: seq<real>)
    requires cols <= mat.Length1
    reads mat
  {
    if cols == 0 then []
    else ColumnMajor(mat, cols - 1) + seq(mat.Length0, i requires 0 <= i < mat.Length0 reads mat => mat[i, cols - 1])
  }

  /** Cell (i, j) sits at its column-major position in the storage-order
      listing of the first n columns. */
  lemma {:induction false} ColumnMajorAt(mat: array2<real>, n: nat, i: nat, j: nat)
    requires i < mat.Length0 && j < n <= mat.Length1
    ensures CellIndex(mat.Length0, i, j) < |ColumnMajor(mat, n)|
    ensures ColumnMajor(mat, n)[CellIndex(mat.Length0, i, j)] == mat[i, j]
  {
    ColumnMajorLength(mat, n);
    ColumnMajorLength(mat, n - 1);
    CellIndexInRange(mat.Length0, n, i, j);
    if j < n - 1 {
      ColumnMajorAt(mat, n - 1, i, j);
    } else {
      assert mat.Length0 * (n - 1) == (n - 1) * mat.Length0;
    }
  }

  /** A matrix holding y[i] - x[j] in cell (i, j) lists, in storage order,
      exactly the reference buffer. */
  lemma {:induction false} ColumnMajorOfDifferences(mat: array2<real>, x: seq<real>, y: seq<real>, n: nat)
    requires mat.Length0 == |y| && mat.Length1 == |x| && n <= |x|
    requires forall i, j :: 0 <= i < |y| && 0 <= j < |x| ==> mat[i, j] == y[i] - x[j]
    ensures ColumnMajor(mat, n) == Differences(x[..n], y)
  {
    if n > 0 {
      ColumnMajorOfDifferences(mat, x, y, n - 1);
      assert x[..n][..n - 1] == x[..n - 1];
    }
  }

  /** The fill loops of `cpp_hle2`: a |y| x |x| matrix with y[i] - x[j] in
      cell (i, j). */
  method DifferenceMatrix(x: seq<real>, y: seq<real>) returns (mat: array2<real>)
    ensures fresh(mat)
    ensures mat.Length0 == |y| && mat.Length1 == |x|
    ensures forall i, j :: 0 <= i < |y| && 0 <= j < |x| ==> mat[i, j] == y[i] - x[j]
  {
    mat := new real[|y|, |x|];
    for i := 0 to |y|
      invariant forall i', j :: 0 <= i' < i && 0 <= j < |x| ==> mat[i', j] == y[i'] - x[j]
    {
      for j := 0 to |x|
        invariant forall i', j' :: 0 <= i' < i && 0 <= j' < |x| ==> mat[i', j'] == y[i'] - x[j']
        invariant forall j' :: 0 <= j' < j ==> mat[i, j'] == y[i] - x[j']
      {
        mat[i, j] := y[i] - x[j];
      }
    }
  }

  /** `diff_mat.import(diff_mat.begin(), diff_mat.end())`: a flat copy of
      the matrix in storage order. */
  method Flatten(mat: array2<real>) returns (v: array<real>)
    ensures fresh(v)
    ensures v[..] == ColumnMajor(mat, mat.Length1)
  {
    var rows, cols := mat.Length0, mat.Length1;
    ghost var target := ColumnMajor(mat, cols);
    ColumnMajorLength(mat, cols);
    v := new real[rows * cols];
    var k := 0;
    for j := 0 to cols
      invariant k == j * rows
      invariant forall m :: 0 <= m < k ==> v[m] == target[m]
    {
      ColumnMajorLength(mat, j);
      ColumnMajorLength(mat, j + 1);
      ColumnMajorPrefix(mat, j + 1, cols);
      ghost var upTo := ColumnMajor(mat, j + 1);
      MulMonotone(j + 1, cols, rows);
      for i := 0 to rows
        invariant k == j * rows + i
        invariant forall m :: 0 <= m < k ==> v[m] == target[m]
      {
        assert target[k] == upTo[k] == mat[i, j];
        v[k] := mat[i, j];
        k := k + 1;
      }
      assert k == (j + 1) * rows;
    }
    assert v[..] == target;
  }

  lemma {:induction false} ColumnMajorLength(mat: array2<real>, n: nat)
    requires n <= mat.Length1
    ensures |ColumnMajor(mat, n)| == n * mat.Length0
  {
    if n > 0 {
      ColumnMajorLength(mat, n - 1);
      assert n * mat.Length0 == (n - 1) * mat.Length0 + mat.Length0;
    }
  }

  /** The first n columns are a prefix of the first m. */
  lemma {:induction false} ColumnMajorPrefix(mat: array2<real>, n: nat, m: nat)
    requires n <= m <= mat.Length1
    ensures ColumnMajor(mat, n) <= ColumnMajor(mat, m)
    decreases m
  {
    if n < m {
      ColumnMajorPrefix(mat, n, m - 1);
    }
  }

  /** `cpp_hle2`: the median of all differences y[i] - x[j]. It fails with
      the empty-vector error exactly when x or y is empty, because the
      buffer is then empty. The samples are only read. */
  method Hle2(x: seq<real>, y: seq<real>) returns (r: Result<real>)
    ensures r == MedianOf(Differences(x, y))
    ensures r.Err? <==> x == [] || y == []
  {
    var mat := DifferenceMatrix(x, y);
    var diff := Flatten(mat);
    ColumnMajorOfDifferences(mat, x, y, |x|);
    assert x[..|x|] == x;
    r := Median(diff);
    DifferencesEmpty(x, y);
  }
}
