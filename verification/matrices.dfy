/** Dense matrices of exact reals stored row by row, with the shape kept next
    to the data: construction with its emptiness and raggedness checks, the
    zero matrix, transposition, the matrix product, the matrix-vector product
    and column access. */
module Matrices {
  import opened Results
  import Vectors

  const EmptyMatrix: string := "Matrix cannot be empty"
  const RaggedRows: string := "All rows must have the same number of columns"
  const ShapeMismatch: string := "Incompatible shapes for multiplication"
  const VectorShapeMismatch: string := "Incompatible shapes for matrix-vector multiplication"
  const ColumnLengthMismatch: string := "Column length mismatch"

  /** A matrix: its rows, and the shape recorded alongside them. */
  datatype Matrix = Matrix(data: seq<seq<real>>, rows: nat, cols: nat)

  /** Every row of `data` has exactly `cols` entries. */
  ghost predicate Rectangular(data: seq<seq<real>>, cols: nat) {
    forall i :: 0 <= i < |data| ==> |data[i]| == cols
  }

  /** The recorded shape is the shape of the data. */
  ghost predicate WellFormed(m: Matrix) {
    |m.data| == m.rows && Rectangular(m.data, m.cols)
  }

  /** Builds a matrix from its rows, refusing empty and ragged input. */
  function New(data: seq<seq<real>>): (r: Result<Matrix>)
    ensures r.Err? <==> |data| == 0 || |data[0]| == 0 || !Rectangular(data, |data[0]|)
    ensures (|data| == 0 || |data[0]| == 0) ==> r == Err(EmptyMatrix)
    ensures |data| > 0 && |data[0]| > 0 && r.Err? ==> r.error == RaggedRows
    ensures r.Ok? ==> WellFormed(r.value) && r.value.data == data
    ensures r.Ok? ==> r.value.rows > 0 && r.value.cols > 0
  {
    if |data| == 0 || |data[0]| == 0 then Err(EmptyMatrix)
    else
      var cols := |data[0]|;
      if exists i :: 0 <= i < |data| && |data[i]| != cols then Err(RaggedRows)
      else Ok(Matrix(data, |data|, cols))
  }

  /** Every well-formed matrix with at least one entry is what `New` builds
      from its own rows. */
  lemma NewRoundTrip(m: Matrix)
    requires WellFormed(m) && m.rows > 0 && m.cols > 0
    ensures New(m.data) == Ok(m)
  {
    assert |m.data[0]| == m.cols;
  }

  /** The `rows` by `cols` matrix of zeros; no shape is refused. */
  function Zeros(rows: nat, cols: nat): (r: Matrix)
    ensures WellFormed(r) && r.rows == rows && r.cols == cols
    ensures forall i, j :: 0 <= i < rows && 0 <= j < cols ==> r.data[i][j] == 0.0
  {
    Matrix(seq(rows, _ => seq(cols, _ => 0.0)), rows, cols)
  }

  /** The transpose: entry `(j, i)` of the result is entry `(i, j)` of `m`. */
  function Transposed(m: Matrix): (r: Matrix)
    requires WellFormed(m)
    ensures WellFormed(r) && r.rows == m.cols && r.cols == m.rows
    ensures forall i, j :: 0 <= i < m.rows && 0 <= j < m.cols ==> r.data[j][i] == m.data[i][j]
  {
    Matrix(seq(m.cols, j requires 0 <= j < m.cols => seq(m.rows, i requires 0 <= i < m.rows => m.data[i][j])),
           m.cols, m.rows)
  }

  /** Transposition as the nested loop computes it: start from zeros of the
      swapped shape and copy entry `(i, j)` to `(j, i)`, row by row. */
  method Transpose(m: Matrix) returns (t: Matrix)
    requires WellFormed(m)
    ensures t == Transposed(m)
  {
    var out := Zeros(m.cols, m.rows).data;
    for i := 0 to m.rows
      invariant |out| == m.cols
      invariant forall j :: 0 <= j < m.cols ==> |out[j]| == m.rows
      invariant forall j, i' :: 0 <= j < m.cols && 0 <= i' < i ==> out[j][i'] == m.data[i'][j]
    {
      for j := 0 to m.cols
        invariant |out| == m.cols
        invariant forall j' :: 0 <= j' < m.cols ==> |out[j']| == m.rows
        invariant forall j', i' :: 0 <= j' < m.cols && 0 <= i' < i ==> out[j'][i'] == m.data[i'][j']
        invariant forall j' :: 0 <= j' < j ==> out[j'][i] == m.data[i][j']
      {
        out := out[j := out[j][i := m.data[i][j]]];
      }
    }
    t := Matrix(out, m.cols, m.rows);
    assert forall j :: 0 <= j < m.cols ==> out[j] == Transposed(m).data[j];
  }

  /** Transposing twice gives the matrix back. */
  lemma TransposeInvolutive(m: Matrix)
    requires WellFormed(m)
    ensures Transposed(Transposed(m)) == m
  {
    var tt := Transposed(Transposed(m));
    assert forall i :: 0 <= i < m.rows ==> tt.data[i] == m.data[i];
  }

  /** The transpose of a zero matrix is the zero matrix of the swapped shape. */
  lemma TransposeZeros(rows: nat, cols: nat)
    ensures Transposed(Zeros(rows, cols)) == Zeros(cols, rows)
  {
    var t := Transposed(Zeros(rows, cols));
    assert forall j :: 0 <= j < cols ==> t.data[j] == Zeros(cols, rows).data[j];
  }

  /** Column `idx`, read top to bottom. A matrix without rows has an empty
      column at any index. */
  function Col(m: Matrix, idx: nat): (r: seq<real>)
    requires WellFormed(m) && (m.rows > 0 ==> idx < m.cols)
    ensures |r| == m.rows
    ensures forall i :: 0 <= i < m.rows ==> r[i] == m.data[i][idx]
  {
    seq(m.rows, i requires 0 <= i < m.rows => m.data[i][idx])
  }

  /** The columns of the transpose are the rows of the matrix. */
  lemma ColOfTranspose(m: Matrix, i: nat)
    requires WellFormed(m) && i < m.rows
    ensures Col(Transposed(m), i) == m.data[i]
  {
  }

  /** Overwrites column `idx` with `col`, which must be as long as the matrix
      is tall. */
  function SetCol(m: Matrix, idx: nat, col: seq<real>): (r: Result<Matrix>)
    requires WellFormed(m) && (|col| == m.rows > 0 ==> idx < m.cols)
    ensures r.Err? <==> |col| != m.rows
    ensures r.Err? ==> r.error == ColumnLengthMismatch
    ensures r.Ok? ==> WellFormed(r.value) && r.value.rows == m.rows && r.value.cols == m.cols
    ensures r.Ok? ==> Col(r.value, idx) == col
    ensures r.Ok? ==> forall i, j :: 0 <= i < m.rows && 0 <= j < m.cols && j != idx ==>
                        r.value.data[i][j] == m.data[i][j]
  {
    if |col| != m.rows then Err(ColumnLengthMismatch)
    else Ok(Matrix(seq(m.rows, i requires 0 <= i < m.rows => m.data[i][idx := col[i]]), m.rows, m.cols))
  }

  /** Column replacement in place, as the loop does it: on a length mismatch
      the matrix is returned untouched with the error, otherwise each row in
      turn gets its entry `idx` overwritten. */
  method SetColumn(m: Matrix, idx: nat, col: seq<real>) returns (m': Matrix, r: Result<()>)
    requires WellFormed(m) && (|col| == m.rows > 0 ==> idx < m.cols)
    ensures r.Err? <==> |col| != m.rows
    ensures r.Err? ==> r.error == ColumnLengthMismatch && m' == m
    ensures r.Ok? ==> SetCol(m, idx, col) == Ok(m')
  {
    if |col| != m.rows {
      return m, Err(ColumnLengthMismatch);
    }
    var data := m.data;
    for p := 0 to m.rows
      invariant |data| == m.rows
      invariant forall q :: p <= q < m.rows ==> data[q] == m.data[q]
      invariant forall q :: 0 <= q < p ==> data[q] == m.data[q][idx := col[q]]
    {
      data := data[p := data[p][idx := col[p]]];
    }
    m', r := Matrix(data, m.rows, m.cols), Ok(());
    assert data == SetCol(m, idx, col).value.data;
  }

  /** Writing back a column that was just read changes nothing. */
  lemma SetColOwnCol(m: Matrix, idx: nat)
    requires WellFormed(m) && (m.rows > 0 ==> idx < m.cols)
    ensures SetCol(m, idx, Col(m, idx)) == Ok(m)
  {
    var r := SetCol(m, idx, Col(m, idx)).value;
    assert forall i :: 0 <= i < m.rows ==> r.data[i] == m.data[i];
    assert r.data == m.data;
  }

  /** Setting the same column twice keeps only the second write. */
  lemma SetColTwice(m: Matrix, idx: nat, c1: seq<real>, c2: seq<real>)
    requires WellFormed(m) && |c1| == |c2| == m.rows && (m.rows > 0 ==> idx < m.cols)
    ensures SetCol(SetCol(m, idx, c1).value, idx, c2) == SetCol(m, idx, c2)
  {
    var r1 := SetCol(SetCol(m, idx, c1).value, idx, c2).value;
    var r2 := SetCol(m, idx, c2).value;
    assert forall i :: 0 <= i < m.rows ==> r1.data[i] == r2.data[i];
    assert r1.data == r2.data;
  }

  /** Entry `(i, j)` of the product of `a` and `b`: row `i` of `a` against
      column `j` of `b`. */
  function Entry(a: Matrix, b: Matrix, i: nat, j: nat): real
    requires WellFormed(a) && WellFormed(b) && a.cols == b.rows
    requires i < a.rows && j < b.cols
  {
    Vectors.Dot(a.data[i], Col(b, j))
  }

  /** The first `k` terms of `Entry(a, b, i, j)`, summed in the order the
      product loop adds them. */
  function PartialEntry(a: Matrix, b: Matrix, i: nat, j: nat, k: nat): real
    requires WellFormed(a) && WellFormed(b) && a.cols == b.rows
    requires i < a.rows && j < b.cols && k <= a.cols
    decreases k
  {
    if k == 0 then 0.0
    else PartialEntry(a, b, i, j, k - 1) + a.data[i][k - 1] * b.data[k - 1][j]
  }

  /** Multiplying `x` by equal factors gives equal products. The solver does
      not reliably rewrite an equality inside a nonlinear product by itself,
      so PartialEntryIsDot and PartialEntryStep state that step through this
      lemma. */
  lemma MulCongruence(x: real, y: real, y': real)
    requires y == y'
    ensures x * y == x * y'
  {
  }

  /** One more term of a partial sum, with the entry of `a` already read into
      `x`. */
  lemma PartialEntryStep(a: Matrix, b: Matrix, i: nat, j: nat, k: nat, x: real)
    requires WellFormed(a) && WellFormed(b) && a.cols == b.rows
    requires i < a.rows && j < b.cols && k < a.cols && x == a.data[i][k]
    ensures PartialEntry(a, b, i, j, k + 1) == PartialEntry(a, b, i, j, k) + x * b.data[k][j]
  {
    MulCongruence(b.data[k][j], a.data[i][k], x);
  }

  /** The partial sums are the dot products of prefixes of the row and the
      column. */
  lemma {:induction false} PartialEntryIsDot(a: Matrix, b: Matrix, i: nat, j: nat, k: nat)
    requires WellFormed(a) && WellFormed(b) && a.cols == b.rows
    requires i < a.rows && j < b.cols && k <= a.cols
    ensures PartialEntry(a, b, i, j, k) == Vectors.Dot(a.data[i][..k], Col(b, j)[..k])
    decreases k
  {
    if k > 0 {
      PartialEntryIsDot(a, b, i, j, k - 1);
      Vectors.DotStep(a.data[i], Col(b, j), k - 1);
      MulCongruence(a.data[i][k - 1], Col(b, j)[k - 1], b.data[k - 1][j]);
    }
  }

  /** All of the partial sum is the entry. */
  lemma PartialEntryComplete(a: Matrix, b: Matrix, i: nat, j: nat)
    requires WellFormed(a) && WellFormed(b) && a.cols == b.rows
    requires i < a.rows && j < b.cols
    ensures PartialEntry(a, b, i, j, a.cols) == Entry(a, b, i, j)
  {
    PartialEntryIsDot(a, b, i, j, a.cols);
    assert a.data[i][..a.cols] == a.data[i];
    assert Col(b, j)[..a.cols] == Col(b, j);
  }

  /** The matrix product, refused when the inner dimensions differ. */
  function Product(a: Matrix, b: Matrix): (r: Result<Matrix>)
    requires WellFormed(a) && WellFormed(b)
    ensures r.Err? <==> a.cols != b.rows
    ensures r.Err? ==> r.error == ShapeMismatch
    ensures r.Ok? ==> WellFormed(r.value) && r.value.rows == a.rows && r.value.cols == b.cols
    ensures r.Ok? ==> forall i, j :: 0 <= i < a.rows && 0 <= j < b.cols ==>
                        r.value.data[i][j] == Entry(a, b, i, j)
  {
    if a.cols != b.rows then Err(ShapeMismatch)
    else
      Ok(Matrix(seq(a.rows, i requires 0 <= i < a.rows =>
                  seq(b.cols, j requires 0 <= j < b.cols => Entry(a, b, i, j))),
                a.rows, b.cols))
  }

  /** The product as the triple loop computes it: for each row `i` of `a` and
      each `k`, entry `(i, k)` of `a` times row `k` of `b` is added into row `i`
      of the result, so every entry accumulates its terms in the order of `k`. */
  method Mul(a: Matrix, b: Matrix) returns (r: Result<Matrix>)
    requires WellFormed(a) && WellFormed(b)
    ensures r == Product(a, b)
  {
    if a.cols != b.rows {
      return Err(ShapeMismatch);
    }
    var out := Zeros(a.rows, b.cols).data;
    for i := 0 to a.rows
      invariant |out| == a.rows
      invariant forall p :: 0 <= p < a.rows ==> |out[p]| == b.cols
      invariant forall p, j :: 0 <= p < i && 0 <= j < b.cols ==> out[p][j] == Entry(a, b, p, j)
      invariant forall p, j :: i <= p < a.rows && 0 <= j < b.cols ==> out[p][j] == 0.0
    {
      for k := 0 to a.cols
        invariant |out| == a.rows
        invariant forall p :: 0 <= p < a.rows ==> |out[p]| == b.cols
        invariant forall p, j :: 0 <= p < i && 0 <= j < b.cols ==> out[p][j] == Entry(a, b, p, j)
        invariant forall p, j :: i < p < a.rows && 0 <= j < b.cols ==> out[p][j] == 0.0
        invariant forall j :: 0 <= j < b.cols ==> out[i][j] == PartialEntry(a, b, i, j, k)
      {
        var x := a.data[i][k];
        for j := 0 to b.cols
          invariant |out| == a.rows
          invariant forall p :: 0 <= p < a.rows ==> |out[p]| == b.cols
          invariant forall p, j' :: 0 <= p < i && 0 <= j' < b.cols ==> out[p][j'] == Entry(a, b, p, j')
          invariant forall p, j' :: i < p < a.rows && 0 <= j' < b.cols ==> out[p][j'] == 0.0
          invariant forall j' :: 0 <= j' < j ==> out[i][j'] == PartialEntry(a, b, i, j', k + 1)
          invariant forall j' :: j <= j' < b.cols ==> out[i][j'] == PartialEntry(a, b, i, j', k)
        {
          PartialEntryStep(a, b, i, j, k, x);
          out := out[i := out[i][j := out[i][j] + x * b.data[k][j]]];
        }
      }
      forall j | 0 <= j < b.cols
        ensures out[i][j] == Entry(a, b, i, j)
      {
        PartialEntryComplete(a, b, i, j);
      }
    }
    r := Ok(Matrix(out, a.rows, b.cols));
    assert forall p :: 0 <= p < a.rows ==> out[p] == Product(a, b).value.data[p];
    assert out == Product(a, b).value.data;
  }

  /** The rows of the transpose are the columns of the matrix. */
  lemma RowOfTranspose(m: Matrix, j: nat)
    requires WellFormed(m) && j < m.cols
    ensures Transposed(m).data[j] == Col(m, j)
  {
  }

  /** Transposing a product multiplies the transposes in the opposite order. */
  lemma TransposeOfProduct(a: Matrix, b: Matrix)
    requires WellFormed(a) && WellFormed(b) && a.cols == b.rows
    ensures Product(Transposed(b), Transposed(a)).Ok?
    ensures Transposed(Product(a, b).value) == Product(Transposed(b), Transposed(a)).value
  {
    var left := Transposed(Product(a, b).value);
    var right := Product(Transposed(b), Transposed(a)).value;
    forall j, i | 0 <= j < b.cols && 0 <= i < a.rows
      ensures left.data[j][i] == right.data[j][i]
    {
      RowOfTranspose(b, j);
      ColOfTranspose(a, i);
      Vectors.DotSymmetric(a.data[i], Col(b, j));
    }
    assert forall j :: 0 <= j < b.cols ==> left.data[j] == right.data[j];
    assert left.data == right.data;
  }

  /** The Gram matrix of `a`, its transpose times itself, is symmetric. */
  lemma GramSymmetric(a: Matrix)
    requires WellFormed(a)
    ensures Product(Transposed(a), a).Ok?
    ensures Transposed(Product(Transposed(a), a).value) == Product(Transposed(a), a).value
  {
    TransposeOfProduct(Transposed(a), a);
    TransposeInvolutive(a);
  }

  /** A zero matrix times any matrix of matching height is a zero matrix. */
  lemma ZerosProduct(n: nat, b: Matrix)
    requires WellFormed(b)
    ensures Product(Zeros(n, b.rows), b) == Ok(Zeros(n, b.cols))
  {
    var p := Product(Zeros(n, b.rows), b).value;
    forall i, j | 0 <= i < n && 0 <= j < b.cols
      ensures p.data[i][j] == 0.0
    {
      Vectors.DotWithZeroVector(Zeros(n, b.rows).data[i], Col(b, j));
    }
    assert forall i :: 0 <= i < n ==> p.data[i] == Zeros(n, b.cols).data[i];
    assert p.data == Zeros(n, b.cols).data;
  }

  /** The matrix-vector product, refused when the vector's length is not the
      matrix's width: one dot product per row. */
  function MatVec(m: Matrix, v: seq<real>): (r: Result<seq<real>>)
    requires WellFormed(m)
    ensures r.Err? <==> m.cols != |v|
    ensures r.Err? ==> r.error == VectorShapeMismatch
    ensures r.Ok? ==> |r.value| == m.rows
    ensures r.Ok? ==> forall i :: 0 <= i < m.rows ==> r.value[i] == Vectors.Dot(m.data[i], v)
  {
    if m.cols != |v| then Err(VectorShapeMismatch)
    else Ok(seq(m.rows, i requires 0 <= i < m.rows => Vectors.Dot(m.data[i], v)))
  }

  /** The matrix-vector product as the loops compute it: each row is summed
      left to right into a scalar that is then stored. */
  method MulVec(m: Matrix, v: seq<real>) returns (r: Result<seq<real>>)
    requires WellFormed(m)
    ensures r == MatVec(m, v)
  {
    if m.cols != |v| {
      return Err(VectorShapeMismatch);
    }
    var out := seq(m.rows, _ => 0.0);
    for i := 0 to m.rows
      invariant |out| == m.rows
      invariant forall p :: 0 <= p < i ==> out[p] == Vectors.Dot(m.data[p], v)
    {
      var s := 0.0;
      for j := 0 to m.cols
        invariant s == Vectors.Dot(m.data[i][..j], v[..j])
      {
        Vectors.DotStep(m.data[i], v, j);
        s := s + m.data[i][j] * v[j];
      }
      assert m.data[i][..m.cols] == m.data[i] && v[..m.cols] == v;
      out := out[i := s];
    }
    r := Ok(out);
    assert out == MatVec(m, v).value;
  }

  /** `v` as a one-column matrix. */
  function ColumnMatrix(v: seq<real>): (r: Matrix)
    ensures WellFormed(r) && r.rows == |v| && r.cols == 1
    ensures Col(r, 0) == v
  {
    Matrix(seq(|v|, i requires 0 <= i < |v| => [v[i]]), |v|, 1)
  }

  /** Multiplying by a vector is multiplying by that vector as a one-column
      matrix. */
  lemma MatVecIsProductWithColumn(m: Matrix, v: seq<real>)
    requires WellFormed(m) && m.cols == |v|
    ensures Product(m, ColumnMatrix(v)).Ok?
    ensures MatVec(m, v).value == Col(Product(m, ColumnMatrix(v)).value, 0)
  {
  }
}
