# rust-vector-math in Dafny

A model of the numerical core of `rust-vector-math`: the `Vector` type with its
elementwise arithmetic, dot product, norm, unit vector, scalar projection and
cosine similarity (`src/vector.rs`), and the dense `Matrix` type with its
validating constructor, zeros, transpose, matrix and matrix-vector products and
column access (`src/matrix.rs`).

Elements are exact `real` numbers. The generic element type `T` of
`operate_vectors` is instantiated at `real`, with `T::default()` being `0.0`.
Errors are the source's `&'static str` messages, kept verbatim, inside a
`Result` datatype (`results.dfy`). The square root is a parameter of type
`SqrtFn`: any function that is non-negative on non-negative arguments and zero
exactly at zero. A few lemmas also assume it is exact (`IsExactSqrt`).

Files:

- `results.dfy`: module `Results`, the `Result` datatype with `:-` support.
- `vectors.dfy`: module `Vectors`, covering `operate_vectors`, the f64 helpers, the `Vector` methods and the lemmas about them.
- `matrices.dfy`: module `Matrices`, covering the `Matrix` struct and its well-formedness invariant (`rows == data.len()`, every row of length `cols`), its operations, and the loops of `transpose`, `mul`, `mul_vec` and `set_col` as methods proved equal to their functional definitions.

## Model

| member | source | states |
|---|---|---|
| `Vectors.TryFold` | src/vector.rs:171-188 | The fold fails exactly when the operation is a division and a not-yet-visited divisor is zero, with "Division by zero". Otherwise it keeps the accumulator as a prefix and fills every later position with `a[k] op b[k]`. |
| `Vectors.OperateVectors` | src/vector.rs:157-190 | Different lengths give "Vectors must have the same length" for every op. For equal lengths it fails exactly when the op is Div and some divisor is zero, with "Division by zero". On success `result[i] = a[i] op b[i]` at every position, and the result has the common length. |
| `Vectors.OperateVectorsExamples` | src/vector.rs:214-275 | The worked cases: add, sub, mul and div of four-element vectors; a zero divisor gives "Division by zero"; lengths 2 and 3 give the mismatch error. |
| `Vectors.AddVectors` | src/vector.rs:130-136 | Fails exactly on a length mismatch, with the mismatch message. Otherwise it is the elementwise sum. |
| `Vectors.SubVectors` | src/vector.rs:138-145 | Fails exactly on a length mismatch, with the mismatch message. Otherwise it is the elementwise difference. |
| `Vectors.MultVectors` | src/vector.rs:147-154 | Fails exactly on a length mismatch, with the mismatch message. Otherwise it is the elementwise product. |
| `Vectors.HelpersAgreeWithOperateVectors` | src/vector.rs:130-190 | The three f64 helpers give the same sequence or the same error as the generic operation with Add, Sub and Mul, for all inputs. |
| `Vectors.VectorAdd` | src/vector.rs:26-28 | `Vector::add` fails exactly on a length mismatch. Otherwise it is the elementwise sum. |
| `Vectors.VectorSub` | src/vector.rs:29-31 | `Vector::sub` fails exactly on a length mismatch. Otherwise it is the elementwise difference. |
| `Vectors.VectorMul` | src/vector.rs:33-35 | `Vector::mul` fails exactly on a length mismatch. Otherwise it is the elementwise product. |
| `Vectors.VectorDiv` | src/vector.rs:37-39 | `Vector::div` fails exactly on a length mismatch (mismatch message) or a zero divisor ("Division by zero"). Otherwise it is the elementwise quotient. |
| `Vectors.OperationsKeepLen` | src/vector.rs:26-43 | A successful `add`, `sub`, `mul` or `div` returns a vector whose `len` (modelled by `Len`, the length of the underlying sequence) equals the `len` of both operands. |
| `Vectors.DotProduct` | src/vector.rs:50-61 | Fails exactly on a length mismatch. Otherwise it is the sum of pairwise products folded from zero. |
| `Vectors.DotProductExample` | src/vector.rs:259-265 | [1,2,3]·[1,2,3] = 14. |
| `Vectors.DotSymmetric` | src/vector.rs:54-58 | The folded sum of pairwise products does not depend on the order of its operands. |
| `Vectors.DotWithZeroVector` | src/vector.rs:54-58 | The dot product with an all-zero vector is zero. |
| `Vectors.SumSquaresIsSelfDot` | src/vector.rs:67 | The sum of squares that `norm` folds is the vector's dot product with itself. |
| `Vectors.SumSquaresZeroIff` | src/vector.rs:67 | The sum of squares is non-negative, and zero exactly when every element is zero. |
| `Vectors.Norm` | src/vector.rs:63-70 | Fails exactly on the empty vector, with "Vector must have at least one element". Otherwise the norm is non-negative, and zero exactly on the all-zero vector. |
| `Vectors.NormSquaredIsSelfDot` | src/vector.rs:63-70 | With an exact square root, the squared norm is the dot product of the vector with itself. |
| `Vectors.UnitVect` | src/vector.rs:72-84 | Fails exactly on the all-zero vector. The empty vector gives the empty-vector message; other zero vectors give "Cannot normalize zero vector". On success the length is kept. |
| `Vectors.UnitVectHasUnitNorm` | src/vector.rs:72-84 | With an exact square root, the unit vector of any non-zero vector exists and has norm exactly one. |
| `Vectors.UnitVectScalesBack` | src/vector.rs:72-84 | Each element of the unit vector times the norm gives back the original element. |
| `Vectors.DotDivideBy` | src/vector.rs:91-92 | The dot product with a vector divided by `n`, multiplied by `n`, is the dot product with the undivided vector. |
| `Vectors.SumSquaresDivideBy` | src/vector.rs:67-81 | Dividing every element by `n` divides the sum of squares by `n * n`. |
| `Vectors.ScalarProjection` | src/vector.rs:86-95 | A length mismatch is reported first. Otherwise it fails exactly when the second vector is all zero: the empty-vector message when empty, else "Cannot normalize zero vector". On success the projection times the second vector's norm is the dot product of the two. |
| `Vectors.CosineSimilarity` | src/vector.rs:97-111 | A length mismatch is reported first. Otherwise it fails exactly when either vector is all zero: the empty-vector message when both are empty, else "Cannot compute cosine similarity with zero vector". |
| `Vectors.CosineSimilaritySymmetric` | src/vector.rs:97-111 | Swapping the operands gives the same result, error or value. |
| `Vectors.CosineSimilarityWithSelf` | src/vector.rs:97-111 | With an exact square root, every non-zero vector has cosine similarity exactly one with itself. |
| `Vectors.CosineSimilarityScalesBack` | src/vector.rs:106-110 | The similarity times the product of the two norms is the dot product. |
| `Matrices.New` | src/matrix.rs:10-22 | An empty outer sequence or an empty first row gives "Matrix cannot be empty". Otherwise any row whose length differs from the first row's gives "All rows must have the same number of columns". On success the data is kept unchanged, `rows = data.len() ≥ 1`, `cols = data[0].len() ≥ 1`, and every row has `cols` entries. |
| `Matrices.NewRoundTrip` | src/matrix.rs:10-22 | Every well-formed matrix with at least one entry is exactly what `new` builds from its own rows. |
| `Matrices.Zeros` | src/matrix.rs:24-30 | For every shape, zero-sized ones included, the result is a well-formed `rows × cols` matrix of zeros. |
| `Matrices.Transposed` | src/matrix.rs:32-44 | `rows` and `cols` swap, the result is well-formed, and entry `(j, i)` is entry `(i, j)` of the input. |
| `Matrices.Transpose` | src/matrix.rs:32-44 | The nested copy loop over a zero matrix of the swapped shape computes exactly `Transposed`. |
| `Matrices.TransposeInvolutive` | src/matrix.rs:32-44 | Transposing twice gives the original matrix back. |
| `Matrices.TransposeZeros` | src/matrix.rs:24-44 | The transpose of `zeros(r, c)` is `zeros(c, r)`. |
| `Matrices.RowOfTranspose` | src/matrix.rs:32-83 | Row `j` of the transpose is column `j` of the matrix. |
| `Matrices.Col` | src/matrix.rs:81-83 | The column has one entry per row, and entry `r` is `data[r][idx]`. |
| `Matrices.ColOfTranspose` | src/matrix.rs:32-83 | Column `i` of the transpose is row `i` of the matrix. |
| `Matrices.SetCol` | src/matrix.rs:85-93 | Fails exactly when the column's length is not `rows`, with "Column length mismatch". On success the shape is kept, `col(idx)` returns the new column, and every entry outside column `idx` is unchanged. |
| `Matrices.SetColumn` | src/matrix.rs:85-93 | The row-by-row loop returns the matrix untouched together with the error on a length mismatch. Otherwise it yields exactly the matrix `SetCol` describes. |
| `Matrices.SetColOwnCol` | src/matrix.rs:81-93 | Writing back a column just read with `col` leaves the matrix unchanged. |
| `Matrices.SetColTwice` | src/matrix.rs:85-93 | Setting the same column twice has the effect of the second write alone. |
| `Matrices.PartialEntryIsDot` | src/matrix.rs:50-58 | After `k` steps of the middle loop, an entry holds the dot product of the first `k` entries of row `i` and column `j`. |
| `Matrices.PartialEntryComplete` | src/matrix.rs:50-58 | After the middle loop has run over all of `k`, an entry is the full row-times-column dot product. |
| `Matrices.Product` | src/matrix.rs:46-64 | Fails exactly when `self.cols != other.rows`, with "Incompatible shapes for multiplication". Otherwise the result is a well-formed `self.rows × other.cols` matrix with `out[i][j] = Σ_k a[i][k]·b[k][j]`. |
| `Matrices.Mul` | src/matrix.rs:46-64 | The i-k-j accumulation loop, which reads `a[i][k]` once per `k`, computes exactly `Product`, error case included. |
| `Matrices.TransposeOfProduct` | src/matrix.rs:32-64 | (AB)ᵀ = BᵀAᵀ whenever AB is defined, and BᵀAᵀ is then defined too. |
| `Matrices.GramSymmetric` | src/matrix.rs:32-64 | AᵀA is always defined and equals its own transpose. |
| `Matrices.ZerosProduct` | src/matrix.rs:24-64 | `zeros(n, k)` times any `k`-row matrix `B` is `zeros(n, B.cols)`. |
| `Matrices.MatVec` | src/matrix.rs:66-79 | Fails exactly when `cols != v.len()`, with "Incompatible shapes for matrix-vector multiplication". Otherwise the result has one entry per row, and entry `i` is `Σ_j data[i][j]·v[j]`. |
| `Matrices.MulVec` | src/matrix.rs:66-79 | The row loop, which sums each row into a scalar and then stores it, computes exactly `MatVec`, error case included. |
| `Matrices.MatVecIsProductWithColumn` | src/matrix.rs:46-79 | `mul_vec(v)` is column 0 of `mul` by `v` taken as a one-column matrix. |

## Left out

- `Matrix::svd` (src/matrix.rs:95-201) is floating-point power iteration with tolerance-based stopping and fixed cut-offs. Its result is approximate, so it has no exact contract.
- The `Display` impl for `Vector` (src/vector.rs:114-127) is string formatting only.
- `src/enums.rs`, `src/enum_example.rs` and `src/point.rs` hold declarations and `Display` impls without logic. `src/main.rs` is a printing demo.
- f64 rounding is not modelled: elements are exact reals. Test claims that depend on rounding, such as `unit_vect([3,4]) == [0.6, 0.8]`, are not stated.
- The square root is an abstract parameter. `Norm` relies only on it being non-negative and zero exactly at zero.
- `usize` overflow is not modelled: lengths, shapes and indices are unbounded naturals.
- Matrix operations: `Transposed`, `Transpose`, `Col`, `SetCol`, `SetColumn`, `Product`, `Mul`, `MatVec` and `MulVec` take the rows/cols/data invariant as a precondition. The struct's fields are public, so the source can be handed a matrix that breaks it. It then panics on an out-of-range index or reads a different shape, and that behaviour is not modelled. `Col`, `SetCol` and `SetColumn` also require `idx < cols` when the column is actually read or written, because the source panics otherwise.
- SetColumn: `set_col` mutates the matrix in place. The model returns the updated matrix together with the `Result<()>`, as value semantics.
- CosineSimilarity: the value is characterised as the dot product over the product of the norms (`CosineSimilarityScalesBack`), and as one for a vector with itself under an exact square root (`CosineSimilarityWithSelf`). Its range [-1, 1] is not proved.
- ScalarProjection: the value is characterised only by "projection × norm = dot product", not by a closed formula.
