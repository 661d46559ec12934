/** Integer linear algebra on already-decoded matrices: element-wise addition,
    row-by-column multiplication, first-row cofactor determinant and transpose,
    each behind the same shape checks, run in the same order, as the tool. */
module MatrixOperations {
  import opened Wrappers

  /** A matrix as a list of rows; nothing forces the rows to have one length. */
  type Matrix = seq<seq<int>>

  /** Which argument of a two-matrix operation a row error is about. */
  datatype Which = First | Second

  datatype MatrixError =
    | MissingMatrix
    | EmptyMatrix
    | RowCountMismatch
    | ColumnCountMismatch
    | InconsistentRow(which: Which, row: nat)
    | IncompatibleShapes
    | NotSquare(row: nat)
    | TooLarge(n: nat)

  /** Every row of m has exactly cols entries. */
  predicate Rectangular(m: Matrix, cols: nat)
  {
    forall i :: 0 <= i < |m| ==> |m[i]| == cols
  }

  /** Row i is the first row of m whose length is not cols. */
  predicate FirstRaggedRow(m: Matrix, cols: nat, i: nat)
  {
    i < |m| && |m[i]| != cols && forall k :: 0 <= k < i ==> |m[k]| == cols
  }

  /** The row-consistency scan: reports the first row whose length is not
      cols, or None when every row has that length. */
  method FindRaggedRow(m: Matrix, cols: nat) returns (r: Option<nat>)
    ensures r == None <==> Rectangular(m, cols)
    ensures r.Some? ==> FirstRaggedRow(m, cols, r.value)
  {
    var i := 0;
    while i < |m|
      invariant 0 <= i <= |m|
      invariant forall k :: 0 <= k < i ==> |m[k]| == cols
    {
      if |m[i]| != cols {
        return Some(i);
      }
      i := i + 1;
    }
    return None;
  }

  // ---------------------------------------------------------------- addition

  /** `_matrix_add`: both arguments given, then emptiness, then row counts,
      then first-row lengths, then the rows of the first matrix, then the rows
      of the second; on success the entry-wise sum. */
  method MatrixAdd(matrix1: Option<Matrix>, matrix2: Option<Matrix>) returns (r: Result<Matrix, MatrixError>)
    ensures matrix1.None? || matrix2.None? <==> r == Err(MissingMatrix)
    ensures matrix1.Some? && matrix2.Some? ==>
              var m1, m2 := matrix1.value, matrix2.value;
              && (|m1| == 0 || |m2| == 0 ==> r == Err(EmptyMatrix))
              && (|m1| > 0 && |m2| > 0 && |m1| != |m2| ==> r == Err(RowCountMismatch))
              && (|m1| > 0 && |m1| == |m2| && |m1[0]| != |m2[0]| ==> r == Err(ColumnCountMismatch))
              && (|m1| > 0 && |m1| == |m2| && |m1[0]| == |m2[0]| && !Rectangular(m1, |m1[0]|) ==>
                    r.Err? && r.error.InconsistentRow? && r.error.which == First
                    && FirstRaggedRow(m1, |m1[0]|, r.error.row))
              && (|m1| > 0 && |m1| == |m2| && |m1[0]| == |m2[0]| && Rectangular(m1, |m1[0]|) &&
                    !Rectangular(m2, |m1[0]|) ==>
                    r.Err? && r.error.InconsistentRow? && r.error.which == Second
                    && FirstRaggedRow(m2, |m1[0]|, r.error.row))
              && (r.Ok? <==> |m1| > 0 && |m1| == |m2| && Rectangular(m1, |m1[0]|) && Rectangular(m2, |m1[0]|))
              && (r.Ok? ==> |r.value| == |m1| && Rectangular(r.value, |m1[0]|))
              && (r.Ok? ==> forall i, j :: 0 <= i < |m1| && 0 <= j < |m1[0]| ==>
                    r.value[i][j] == m1[i][j] + m2[i][j])
  {
    if matrix1.None? || matrix2.None? {
      return Err(MissingMatrix);
    }
    var m1, m2 := matrix1.value, matrix2.value;
    if |m1| == 0 || |m2| == 0 {
      return Err(EmptyMatrix);
    }
    if |m1| != |m2| {
      return Err(RowCountMismatch);
    }
    if |m1[0]| != |m2[0]| {
      return Err(ColumnCountMismatch);
    }
    var cols := |m1[0]|;
    var bad := FindRaggedRow(m1, cols);
    if bad.Some? {
      return Err(InconsistentRow(First, bad.value));
    }
    bad := FindRaggedRow(m2, cols);
    if bad.Some? {
      return Err(InconsistentRow(Second, bad.value));
    }
    var result: Matrix := [];
    var i := 0;
    while i < |m1|
      invariant 0 <= i <= |m1|
      invariant |result| == i && Rectangular(result, cols)
      invariant forall p, q :: 0 <= p < i && 0 <= q < cols ==> result[p][q] == m1[p][q] + m2[p][q]
    {
      var row: seq<int> := [];
      var j := 0;
      while j < cols
        invariant 0 <= j <= cols
        invariant |row| == j
        invariant forall q :: 0 <= q < j ==> row[q] == m1[i][q] + m2[i][q]
      {
        row := row + [m1[i][j] + m2[i][j]];
        j := j + 1;
      }
      result := result + [row];
      i := i + 1;
    }
    return Ok(result);
  }

  // ---------------------------------------------------------- multiplication

  /** Column j of m, top to bottom. */
  function Column(m: Matrix, j: nat): (c: seq<int>)
    requires forall k :: 0 <= k < |m| ==> j < |m[k]|
    ensures |c| == |m| && forall k :: 0 <= k < |m| ==> c[k] == m[k][j]
  {
    seq(|m|, k requires 0 <= k < |m| => m[k][j])
  }

  /** The dot product of two vectors of one length, summed from the front. */
  function Dot(u: seq<int>, v: seq<int>): int
    requires |u| == |v|
  {
    if |u| == 0 then 0
    else Dot(u[..|u| - 1], v[..|v| - 1]) + u[|u| - 1] * v[|v| - 1]
  }

  /** The dot product does not depend on the order of its arguments. */
  lemma {:induction false} DotSymmetric(u: seq<int>, v: seq<int>)
    requires |u| == |v|
    ensures Dot(u, v) == Dot(v, u)
  {
    if |u| > 0 {
      DotSymmetric(u[..|u| - 1], v[..|v| - 1]);
    }
  }

  /** The matrix product: entry (i, j) is row i of m1 dotted with column j of m2. */
  function Product(m1: Matrix, m2: Matrix): (p: Matrix)
    requires |m1| > 0 && |m2| > 0
    requires Rectangular(m1, |m2|) && Rectangular(m2, |m2[0]|)
    ensures |p| == |m1| && Rectangular(p, |m2[0]|)
  {
    seq(|m1|, i requires 0 <= i < |m1| =>
      seq(|m2[0]|, j requires 0 <= j < |m2[0]| => Dot(m1[i], Column(m2, j))))
  }

  /** `_matrix_multiply`: both arguments given, then emptiness, then the rows
      of the first matrix, then the rows of the second, then cols(m1) =
      rows(m2); on success the product, rows(m1) by cols(m2). */
  method MatrixMultiply(matrix1: Option<Matrix>, matrix2: Option<Matrix>) returns (r: Result<Matrix, MatrixError>)
    ensures matrix1.None? || matrix2.None? <==> r == Err(MissingMatrix)
    ensures matrix1.Some? && matrix2.Some? ==>
              var m1, m2 := matrix1.value, matrix2.value;
              && (|m1| == 0 || |m2| == 0 ==> r == Err(EmptyMatrix))
              && (|m1| > 0 && |m2| > 0 && !Rectangular(m1, |m1[0]|) ==>
                    r.Err? && r.error.InconsistentRow? && r.error.which == First
                    && FirstRaggedRow(m1, |m1[0]|, r.error.row))
              && (|m1| > 0 && |m2| > 0 && Rectangular(m1, |m1[0]|) && !Rectangular(m2, |m2[0]|) ==>
                    r.Err? && r.error.InconsistentRow? && r.error.which == Second
                    && FirstRaggedRow(m2, |m2[0]|, r.error.row))
              && (|m1| > 0 && |m2| > 0 && Rectangular(m1, |m1[0]|) && Rectangular(m2, |m2[0]|) ==>
                    (|m1[0]| != |m2| <==> r == Err(IncompatibleShapes)))
              && (r.Ok? <==> |m1| > 0 && |m2| > 0 && Rectangular(m1, |m2|) && Rectangular(m2, |m2[0]|))
              && (r.Ok? ==> r.value == Product(m1, m2))
  {
    if matrix1.None? || matrix2.None? {
      return Err(MissingMatrix);
    }
    var m1, m2 := matrix1.value, matrix2.value;
    if |m1| == 0 || |m2| == 0 {
      return Err(EmptyMatrix);
    }
    var bad := FindRaggedRow(m1, |m1[0]|);
    if bad.Some? {
      return Err(InconsistentRow(First, bad.value));
    }
    bad := FindRaggedRow(m2, |m2[0]|);
    if bad.Some? {
      return Err(InconsistentRow(Second, bad.value));
    }
    var rows1, cols1, cols2 := |m1|, |m1[0]|, |m2[0]|;
    if cols1 != |m2| {
      return Err(IncompatibleShapes);
    }
    var result: Matrix := [];
    var i := 0;
    while i < rows1
      invariant 0 <= i <= rows1
      invariant |result| == i
      invariant forall p :: 0 <= p < i ==> result[p] == Product(m1, m2)[p]
    {
      var row: seq<int> := [];
      var j := 0;
      while j < cols2
        invariant 0 <= j <= cols2
        invariant |row| == j
        invariant forall q :: 0 <= q < j ==> row[q] == Dot(m1[i], Column(m2, q))
      {
        var dot := RowTimesColumn(m1[i], m2, j);
        row := row + [dot];
        j := j + 1;
      }
      result := result + [row];
      i := i + 1;
    }
    return Ok(result);
  }

  /** The summation `sum(m1[i][k] * m2[k][j] for k in range(cols))`. */
  method RowTimesColumn(row: seq<int>, m: Matrix, j: nat) returns (dot: int)
    requires |row| == |m|
    requires forall k :: 0 <= k < |m| ==> j < |m[k]|
    ensures dot == Dot(row, Column(m, j))
  {
    ghost var col := Column(m, j);
    dot := 0;
    var k := 0;
    while k < |row|
      invariant 0 <= k <= |row|
      invariant dot == Dot(row[..k], col[..k])
    {
      assert row[..k + 1][..k] == row[..k] && col[..k + 1][..k] == col[..k];
      dot := dot + row[k] * m[k][j];
      k := k + 1;
    }
    assert row[..k] == row && col[..k] == col;
  }

  /** The n-by-n identity matrix. */
  function Identity(n: nat): (m: Matrix)
    ensures |m| == n && Rectangular(m, n)
    ensures forall i, j :: 0 <= i < n && 0 <= j < n ==> m[i][j] == if i == j then 1 else 0
  {
    seq(n, i requires 0 <= i < n => seq(n, j requires 0 <= j < n => if i == j then 1 else 0))
  }

  /** Dotting u with the first k entries of a unit vector that is 1 at place j. */
  lemma {:induction false} DotUnit(u: seq<int>, e: seq<int>, j: nat, k: nat)
    requires |u| == |e| && k <= |u| && j < |u|
    requires forall t :: 0 <= t < |e| ==> e[t] == if t == j then 1 else 0
    ensures Dot(u[..k], e[..k]) == if j < k then u[j] else 0
  {
    if k > 0 {
      assert u[..k][..k - 1] == u[..k - 1] && e[..k][..k - 1] == e[..k - 1];
      DotUnit(u, e, j, k - 1);
    }
  }

  /** Multiplying on the right by the identity gives the matrix back. */
  lemma ProductIdentityRight(m: Matrix, n: nat)
    requires n > 0 && |m| > 0 && Rectangular(m, n)
    ensures Product(m, Identity(n)) == m
  {
    var p := Product(m, Identity(n));
    forall i | 0 <= i < |m| ensures p[i] == m[i] {
      forall j | 0 <= j < n ensures p[i][j] == m[i][j] {
        var e := Column(Identity(n), j);
        DotUnit(m[i], e, j, n);
        assert m[i][..n] == m[i] && e[..n] == e;
      }
    }
  }

  /** Multiplying on the left by the identity gives the matrix back. */
  lemma ProductIdentityLeft(m: Matrix, n: nat)
    requires n > 0 && |m| == n && Rectangular(m, |m[0]|)
    ensures Product(Identity(n), m) == m
  {
    var p := Product(Identity(n), m);
    forall i | 0 <= i < n ensures p[i] == m[i] {
      forall j | 0 <= j < |m[0]| ensures p[i][j] == m[i][j] {
        var c := Column(m, j);
        var e := Identity(n)[i];
        DotSymmetric(e, c);
        DotUnit(c, e, i, n);
        assert c[..n] == c && e[..n] == e;
      }
    }
  }

  // ------------------------------------------------------------- transpose

  /** The transpose of a matrix with cols columns: entry (c, r) is m[r][c]. */
  function TransposeOf(m: Matrix, cols: nat): (t: Matrix)
    requires Rectangular(m, cols)
    ensures |t| == cols && Rectangular(t, |m|)
    ensures forall c, r :: 0 <= c < cols && 0 <= r < |m| ==> t[c][r] == m[r][c]
  {
    seq(cols, c requires 0 <= c < cols => seq(|m|, r requires 0 <= r < |m| => m[r][c]))
  }

  /** Transposing twice gives the matrix back (a matrix with at least one column). */
  lemma TransposeTwice(m: Matrix, cols: nat)
    requires cols > 0 && Rectangular(m, cols)
    ensures TransposeOf(TransposeOf(m, cols), |m|) == m
  {
    var t := TransposeOf(TransposeOf(m, cols), |m|);
    assert |t| == |m|;
    forall r | 0 <= r < |m| ensures t[r] == m[r] {
      assert |t[r]| == cols;
    }
  }

  /** The transpose of a product is the product of the transposes in the other order. */
  lemma TransposeProduct(m1: Matrix, m2: Matrix)
    requires |m1| > 0 && |m2| > 0 && |m2[0]| > 0
    requires Rectangular(m1, |m2|) && Rectangular(m2, |m2[0]|)
    ensures TransposeOf(Product(m1, m2), |m2[0]|)
         == Product(TransposeOf(m2, |m2[0]|), TransposeOf(m1, |m2|))
  {
    var lhs := TransposeOf(Product(m1, m2), |m2[0]|);
    var t2, t1 := TransposeOf(m2, |m2[0]|), TransposeOf(m1, |m2|);
    var rhs := Product(t2, t1);
    forall j | 0 <= j < |m2[0]| ensures lhs[j] == rhs[j] {
      forall i | 0 <= i < |m1| ensures lhs[j][i] == rhs[j][i] {
        assert t2[j] == Column(m2, j);
        assert Column(t1, i) == m1[i];
        DotSymmetric(m1[i], Column(m2, j));
      }
    }
  }

  /** `_matrix_transpose`: the argument given, then emptiness, then row
      consistency against the first row; on success the cols-by-rows
      transpose. A matrix of empty rows has no columns and transposes to the
      empty list. */
  method MatrixTranspose(matrix: Option<Matrix>) returns (r: Result<Matrix, MatrixError>)
    ensures matrix.None? <==> r == Err(MissingMatrix)
    ensures matrix.Some? ==>
              var m := matrix.value;
              && (|m| == 0 ==> r == Err(EmptyMatrix))
              && (|m| > 0 && !Rectangular(m, |m[0]|) ==>
                    r.Err? && r.error.InconsistentRow? && r.error.which == First
                    && FirstRaggedRow(m, |m[0]|, r.error.row))
              && (r.Ok? <==> |m| > 0 && Rectangular(m, |m[0]|))
              && (r.Ok? ==> r.value == TransposeOf(m, |m[0]|))
  {
    if matrix.None? {
      return Err(MissingMatrix);
    }
    var m := matrix.value;
    if |m| == 0 {
      return Err(EmptyMatrix);
    }
    var cols := |m[0]|;
    var bad := FindRaggedRow(m, cols);
    if bad.Some? {
      return Err(InconsistentRow(First, bad.value));
    }
    var rows := |m|;
    var transpose: Matrix := [];
    var c := 0;
    while c < cols
      invariant 0 <= c <= cols
      invariant |transpose| == c
      invariant forall p :: 0 <= p < c ==> transpose[p] == TransposeOf(m, cols)[p]
    {
      var newRow: seq<int> := [];
      var row := 0;
      while row < rows
        invariant 0 <= row <= rows
        invariant |newRow| == row
        invariant forall q :: 0 <= q < row ==> newRow[q] == m[q][c]
      {
        newRow := newRow + [m[row][c]];
        row := row + 1;
      }
      transpose := transpose + [newRow];
      c := c + 1;
    }
    return Ok(transpose);
  }

  // ----------------------------------------------------------- determinant

  /** m is a non-empty n-by-n matrix. */
  predicate Square(m: Matrix)
  {
    |m| > 0 && Rectangular(m, |m|)
  }

  /** `(-1)^col`. */
  function Sign(col: nat): int
  {
    if col % 2 == 1 then -1 else 1
  }

  /** Row with the entry at place col removed. */
  function DropAt(row: seq<int>, col: nat): (d: seq<int>)
    requires col < |row|
    ensures |d| == |row| - 1
    ensures forall c :: 0 <= c < |d| ==> d[c] == if c < col then row[c] else row[c + 1]
  {
    row[..col] + row[col + 1..]
  }

  /** The minor of a square matrix: row 0 and column col removed. */
  function Minor(m: Matrix, col: nat): (s: Matrix)
    requires Square(m) && |m| >= 2 && col < |m|
    ensures |s| == |m| - 1 && Square(s)
    ensures forall r, c :: 0 <= r < |s| && 0 <= c < |s| ==>
              s[r][c] == if c < col then m[r + 1][c] else m[r + 1][c + 1]
  {
    seq(|m| - 1, r requires 0 <= r < |m| - 1 => DropAt(m[r + 1], col))
  }

  /** The determinant as `calc_determinant` computes it: the entry for 1-by-1,
      ad - bc for 2-by-2, and the first-row cofactor expansion otherwise. */
  function Det(m: Matrix): int
    requires Square(m)
    decreases |m|, 1
  {
    if |m| == 1 then m[0][0]
    else if |m| == 2 then m[0][0] * m[1][1] - m[0][1] * m[1][0]
    else CofactorSum(m, |m|)
  }

  /** The first k terms of the first-row expansion of m. */
  function CofactorSum(m: Matrix, k: nat): int
    requires Square(m) && |m| >= 2 && k <= |m|
    decreases |m|, 0, k
  {
    if k == 0 then 0
    else CofactorSum(m, k - 1) + Sign(k - 1) * m[0][k - 1] * Det(Minor(m, k - 1))
  }

  /** The 2-by-2 shortcut agrees with the cofactor expansion. */
  lemma TwoByTwoIsExpansion(m: Matrix)
    requires Square(m) && |m| == 2
    ensures Det(m) == CofactorSum(m, 2)
  {
    assert Det(Minor(m, 0)) == m[1][1];
    assert Det(Minor(m, 1)) == m[1][0];
    assert CofactorSum(m, 1) == m[0][0] * m[1][1];
    assert CofactorSum(m, 2) == CofactorSum(m, 1) - m[0][1] * m[1][0];
  }

  /** Row 0 of m multiplied by k. */
  function ScaleFirstRow(m: Matrix, k: int): (s: Matrix)
    requires |m| > 0
    ensures |s| == |m| && s[1..] == m[1..]
    ensures |s[0]| == |m[0]| && forall c :: 0 <= c < |m[0]| ==> s[0][c] == k * m[0][c]
  {
    [seq(|m[0]|, c requires 0 <= c < |m[0]| => k * m[0][c])] + m[1..]
  }

  /** The determinant is linear in the first row. */
  lemma ScaleFirstRowScalesDet(m: Matrix, k: int)
    requires Square(m)
    ensures Square(ScaleFirstRow(m, k))
    ensures Det(ScaleFirstRow(m, k)) == k * Det(m)
  {
    var s := ScaleFirstRow(m, k);
    assert forall i :: 1 <= i < |m| ==> s[i] == m[i];
    if |m| > 2 {
      ScaleCofactorSum(m, k, |m|);
    }
  }

  lemma {:induction false} ScaleCofactorSum(m: Matrix, k: int, j: nat)
    requires Square(m) && |m| >= 2 && j <= |m|
    requires Square(ScaleFirstRow(m, k))
    ensures CofactorSum(ScaleFirstRow(m, k), j) == k * CofactorSum(m, j)
  {
    var s := ScaleFirstRow(m, k);
    if j > 0 {
      ScaleCofactorSum(m, k, j - 1);
      MinorIgnoresFirstRow(s, m, j - 1);
      ScaleTerm(CofactorSum(s, j - 1), CofactorSum(m, j - 1), Sign(j - 1),
                s[0][j - 1], m[0][j - 1], k, Det(Minor(m, j - 1)));
    }
  }

  /** A minor does not depend on row 0. */
  lemma MinorIgnoresFirstRow(s: Matrix, m: Matrix, col: nat)
    requires Square(s) && Square(m) && |s| == |m| >= 2 && col < |m|
    requires s[1..] == m[1..]
    ensures Minor(s, col) == Minor(m, col)
  {
    assert forall i :: 1 <= i < |m| ==> s[i] == m[1..][i - 1];
  }

  /** One term of the expansion with its row entry scaled by k. */
  lemma ScaleTerm(sumS: int, sumM: int, g: int, x: int, y: int, k: int, d: int)
    requires sumS == k * sumM && x == k * y
    ensures sumS + g * x * d == k * (sumM + g * y * d)
  {
    assert g * (k * y) * d == k * (g * y * d);
  }

  /** A matrix whose first row is all zeros has determinant 0. */
  lemma ZeroFirstRowDet(m: Matrix)
    requires Square(m)
    requires forall c :: 0 <= c < |m| ==> m[0][c] == 0
    ensures Det(m) == 0
  {
    ScaleFirstRowScalesDet(m, 0);
    var s := ScaleFirstRow(m, 0);
    assert s[0] == m[0];
    assert s == [s[0]] + s[1..] && m == [m[0]] + m[1..];
  }

  /** Removing row 0 and column 0 of the identity leaves the smaller identity. */
  lemma MinorOfIdentity(n: nat)
    requires n >= 2
    ensures Minor(Identity(n), 0) == Identity(n - 1)
  {
    var s, t := Minor(Identity(n), 0), Identity(n - 1);
    forall r | 0 <= r < n - 1 ensures s[r] == t[r] {
      assert |s[r]| == |t[r]|;
    }
  }

  /** Only the first term of the identity's expansion is non-zero. */
  lemma {:induction false} IdentityCofactorSum(n: nat, k: nat)
    requires n >= 3 && 1 <= k <= n
    ensures CofactorSum(Identity(n), k) == Det(Identity(n - 1))
  {
    MinorOfIdentity(n);
    if k > 1 {
      IdentityCofactorSum(n, k - 1);
    }
  }

  /** The identity matrix has determinant 1. */
  lemma {:induction false} IdentityDet(n: nat)
    requires n >= 1
    ensures Det(Identity(n)) == 1
  {
    if n >= 3 {
      IdentityCofactorSum(n, n);
      IdentityDet(n - 1);
    }
  }

  /** A 2-by-2 matrix whose second row is twice its first is singular. */
  lemma DoubledRowDet(a: int, b: int)
    ensures Square([[a, b], [2 * a, 2 * b]]) && Det([[a, b], [2 * a, 2 * b]]) == 0
  {
  }

  /** The cofactor expansion of `calc_determinant` as loops: for each column
      the minor is built row by row, its determinant computed recursively,
      and the signed cofactor accumulated. */
  method CalcDeterminant(m: Matrix) returns (det: int)
    requires Square(m)
    ensures det == Det(m)
    decreases |m|
  {
    var size := |m|;
    if size == 1 {
      return m[0][0];
    }
    if size == 2 {
      return m[0][0] * m[1][1] - m[0][1] * m[1][0];
    }
    det := 0;
    var col := 0;
    while col < size
      invariant 0 <= col <= size
      invariant det == CofactorSum(m, col)
    {
      var minor := BuildMinor(m, col);
      var sub := CalcDeterminant(minor);
      var cofactor := m[0][col] * sub;
      if col % 2 == 1 {
        cofactor := -cofactor;
      }
      SignedTerm(col, m[0][col], sub);
      det := det + cofactor;
      col := col + 1;
    }
  }

  /** Negating the product on odd columns is multiplying it by `Sign(col)`. */
  lemma SignedTerm(col: nat, x: int, d: int)
    ensures Sign(col) * x * d == if col % 2 == 1 then -(x * d) else x * d
  {
  }

  /** Builds the minor for column col with nested loops. */
  method BuildMinor(m: Matrix, col: nat) returns (minor: Matrix)
    requires Square(m) && |m| >= 2 && col < |m|
    ensures minor == Minor(m, col)
  {
    var size := |m|;
    minor := [];
    var row := 1;
    while row < size
      invariant 1 <= row <= size
      invariant |minor| == row - 1
      invariant forall p :: 0 <= p < row - 1 ==> minor[p] == Minor(m, col)[p]
    {
      var minorRow: seq<int> := [];
      var c := 0;
      while c < size
        invariant 0 <= c <= size
        invariant minorRow == DropAt(m[row], col)[..if c <= col then c else c - 1]
      {
        if c != col {
          minorRow := minorRow + [m[row][c]];
        }
        c := c + 1;
      }
      assert minorRow == DropAt(m[row], col);
      minor := minor + [minorRow];
      row := row + 1;
    }
  }

  /** The largest matrix `_matrix_determinant` accepts. */
  const MaxDeterminantSize := 10

  /** `_matrix_determinant`: the argument given, then emptiness, then
      squareness row by row, and only then the size cap; on success the
      cofactor determinant. */
  method MatrixDeterminant(matrix: Option<Matrix>) returns (r: Result<int, MatrixError>)
    ensures matrix.None? <==> r == Err(MissingMatrix)
    ensures matrix.Some? ==>
              var m := matrix.value;
              && (|m| == 0 ==> r == Err(EmptyMatrix))
              && (|m| > 0 && !Rectangular(m, |m|) ==>
                    r.Err? && r.error.NotSquare? && FirstRaggedRow(m, |m|, r.error.row))
              && (Square(m) && |m| > MaxDeterminantSize ==> r == Err(TooLarge(|m|)))
              && (r.Ok? <==> Square(m) && |m| <= MaxDeterminantSize)
              && (r.Ok? ==> r.value == Det(m))
  {
    if matrix.None? {
      return Err(MissingMatrix);
    }
    var m := matrix.value;
    if |m| == 0 {
      return Err(EmptyMatrix);
    }
    var n := |m|;
    var bad := FindRaggedRow(m, n);
    if bad.Some? {
      return Err(NotSquare(bad.value));
    }
    if n > MaxDeterminantSize {
      return Err(TooLarge(n));
    }
    var d := CalcDeterminant(m);
    return Ok(d);
  }
}
