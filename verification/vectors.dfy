/** Vectors of exact reals: the four elementwise operations with their
    length and division-by-zero errors, the dot product, the Euclidean norm and
    the quantities derived from it (unit vector, scalar projection, cosine
    similarity). Floating-point rounding is not modelled. */
module Vectors {
  import opened Results

  const LengthMismatch: string := "Vectors must have the same length"
  const DivisionByZero: string := "Division by zero"
  const EmptyVector: string := "Vector must have at least one element"
  const ZeroNormalization: string := "Cannot normalize zero vector"
  const ZeroSimilarity: string := "Cannot compute cosine similarity with zero vector"

  /** The elementwise operations OperateVectors dispatches on. */
  datatype VectorOp = Add | Sub | Mul | Div

  /** A vector is a thin wrapper around its sequence of elements. */
  datatype Vector = Vector(elems: seq<real>)

  /** The square root the norm-based operations use, kept abstract: any function
      that is non-negative on non-negative arguments and zero exactly at zero. */
  type SqrtFn = f: real -> real
    | forall x: real :: 0.0 <= x ==> 0.0 <= f(x) && (f(x) == 0.0 <==> x == 0.0)
    witness (x: real) => x

  /** A square root that is exact: squaring it gives the argument back. */
  ghost predicate IsExactSqrt(sqrt: SqrtFn) {
    forall x: real :: 0.0 <= x ==> sqrt(x) * sqrt(x) == x
  }

  /** One step of an elementwise operation on a pair of elements. */
  function Combine(op: VectorOp, x: real, y: real): real
    requires op.Div? ==> y != 0.0
  {
    match op
    case Add => x + y
    case Sub => x - y
    case Mul => x * y
    case Div => x / y
  }

  /** `r` is `a` combined with `b` position by position under `op`. */
  ghost predicate IsElementwise(op: VectorOp, a: seq<real>, b: seq<real>, r: seq<real>) {
    && |a| == |b| == |r|
    && forall i :: 0 <= i < |r| ==> (op.Div? ==> b[i] != 0.0) && r[i] == Combine(op, a[i], b[i])
  }

  ghost predicate HasZero(b: seq<real>) {
    exists i :: 0 <= i < |b| && b[i] == 0.0
  }

  ghost predicate IsZeroVector(a: seq<real>) {
    forall i :: 0 <= i < |a| ==> a[i] == 0.0
  }

  /** The accumulating fold behind OperateVectors: pairs are visited left to
      right, and a zero divisor stops the fold with an error. */
  function TryFold(a: seq<real>, b: seq<real>, op: VectorOp, acc: seq<real>): (r: Result<seq<real>>)
    requires |a| == |b| && |acc| <= |a|
    ensures r.Err? <==> op.Div? && exists k :: |acc| <= k < |a| && b[k] == 0.0
    ensures r.Err? ==> r.error == DivisionByZero
    ensures r.Ok? ==> |r.value| == |a| && r.value[..|acc|] == acc
    ensures r.Ok? ==> forall k :: |acc| <= k < |a| ==>
                        (op.Div? ==> b[k] != 0.0) && r.value[k] == Combine(op, a[k], b[k])
    decreases |a| - |acc|
  {
    if |acc| == |a| then Ok(acc)
    else
      var i := |acc|;
      if op.Div? && b[i] == 0.0 then Err(DivisionByZero)
      else
        var r := TryFold(a, b, op, acc + [Combine(op, a[i], b[i])]);
        assert r.Ok? ==> r.value[..i] == r.value[..i + 1][..i];
        r
  }

  /** Generic elementwise operation: equal lengths are required, and a
      division fails as soon as it meets a zero divisor. */
  function OperateVectors(a: seq<real>, b: seq<real>, op: VectorOp): (r: Result<Vector>)
    ensures |a| != |b| ==> r == Err(LengthMismatch)
    ensures |a| == |b| ==> (r.Err? <==> op.Div? && HasZero(b))
    ensures |a| == |b| && r.Err? ==> r.error == DivisionByZero
    ensures r.Ok? ==> IsElementwise(op, a, b, r.value.elems)
  {
    if |a| != |b| then Err(LengthMismatch)
    else
      var v :- TryFold(a, b, op, []);
      Ok(Vector(v))
  }

  /** Worked cases: one per operation, a zero divisor, and a length mismatch. */
  lemma OperateVectorsExamples()
    ensures OperateVectors([1.0, 2.0, 3.0, 4.0], [1.0, 2.0, 3.0, 4.0], Add) == Ok(Vector([2.0, 4.0, 6.0, 8.0]))
    ensures OperateVectors([5.0, 6.0, 7.0, 8.0], [1.0, 2.0, 3.0, 4.0], Sub) == Ok(Vector([4.0, 4.0, 4.0, 4.0]))
    ensures OperateVectors([1.0, 2.0, 3.0, 4.0], [2.0, 3.0, 4.0, 5.0], Mul) == Ok(Vector([2.0, 6.0, 12.0, 20.0]))
    ensures OperateVectors([2.0, 4.0, 6.0, 8.0], [2.0, 2.0, 3.0, 4.0], Div) == Ok(Vector([1.0, 2.0, 2.0, 2.0]))
    ensures OperateVectors([1.0, 2.0, 3.0], [1.0, 0.0, 3.0], Div) == Err(DivisionByZero)
    ensures OperateVectors([1.0, 2.0], [1.0, 2.0, 3.0], Add) == Err(LengthMismatch)
  {
    ExampleCase([1.0, 2.0, 3.0, 4.0], [1.0, 2.0, 3.0, 4.0], Add, [2.0, 4.0, 6.0, 8.0]);
    ExampleCase([5.0, 6.0, 7.0, 8.0], [1.0, 2.0, 3.0, 4.0], Sub, [4.0, 4.0, 4.0, 4.0]);
    ExampleCase([1.0, 2.0, 3.0, 4.0], [2.0, 3.0, 4.0, 5.0], Mul, [2.0, 6.0, 12.0, 20.0]);
    ExampleCase([2.0, 4.0, 6.0, 8.0], [2.0, 2.0, 3.0, 4.0], Div, [1.0, 2.0, 2.0, 2.0]);
    assert HasZero([1.0, 0.0, 3.0]) by {
      assert [1.0, 0.0, 3.0][1] == 0.0;
    }
  }

  /** A result checked position by position is the one OperateVectors gives. */
  lemma ExampleCase(a: seq<real>, b: seq<real>, op: VectorOp, expected: seq<real>)
    requires IsElementwise(op, a, b, expected)
    ensures OperateVectors(a, b, op) == Ok(Vector(expected))
  {
    ElementwiseUnique(op, a, b, OperateVectors(a, b, op).value.elems, expected);
  }

  /** Two results of the same elementwise operation are the same sequence. */
  lemma ElementwiseUnique(op: VectorOp, a: seq<real>, b: seq<real>, r1: seq<real>, r2: seq<real>)
    requires IsElementwise(op, a, b, r1) && IsElementwise(op, a, b, r2)
    ensures r1 == r2
  {
  }

  /** The element sequence of a vector result. */
  function Elems(r: Result<Vector>): Result<seq<real>> {
    match r
    case Ok(v) => Ok(v.elems)
    case Err(e) => Err(e)
  }

  function AddVectors(a: seq<real>, b: seq<real>): (r: Result<seq<real>>)
    ensures r.Err? <==> |a| != |b|
    ensures r.Err? ==> r.error == LengthMismatch
    ensures r.Ok? ==> IsElementwise(Add, a, b, r.value)
  {
    if |a| != |b| then Err(LengthMismatch)
    else Ok(seq(|a|, i requires 0 <= i < |a| => a[i] + b[i]))
  }

  function SubVectors(a: seq<real>, b: seq<real>): (r: Result<seq<real>>)
    ensures r.Err? <==> |a| != |b|
    ensures r.Err? ==> r.error == LengthMismatch
    ensures r.Ok? ==> IsElementwise(Sub, a, b, r.value)
  {
    if |a| != |b| then Err(LengthMismatch)
    else Ok(seq(|a|, i requires 0 <= i < |a| => a[i] - b[i]))
  }

  function MultVectors(a: seq<real>, b: seq<real>): (r: Result<seq<real>>)
    ensures r.Err? <==> |a| != |b|
    ensures r.Err? ==> r.error == LengthMismatch
    ensures r.Ok? ==> IsElementwise(Mul, a, b, r.value)
  {
    if |a| != |b| then Err(LengthMismatch)
    else Ok(seq(|a|, i requires 0 <= i < |a| => a[i] * b[i]))
  }

  /** The three specialised helpers agree with the generic operation, on
      success and on the length-mismatch error alike. */
  lemma {:induction false} HelpersAgreeWithOperateVectors(a: seq<real>, b: seq<real>)
    ensures AddVectors(a, b) == Elems(OperateVectors(a, b, Add))
    ensures SubVectors(a, b) == Elems(OperateVectors(a, b, Sub))
    ensures MultVectors(a, b) == Elems(OperateVectors(a, b, Mul))
  {
    if |a| == |b| {
      ElementwiseUnique(Add, a, b, AddVectors(a, b).value, OperateVectors(a, b, Add).value.elems);
      ElementwiseUnique(Sub, a, b, SubVectors(a, b).value, OperateVectors(a, b, Sub).value.elems);
      ElementwiseUnique(Mul, a, b, MultVectors(a, b).value, OperateVectors(a, b, Mul).value.elems);
    }
  }

  function VectorAdd(u: Vector, v: Vector): (r: Result<Vector>)
    ensures r.Err? <==> |u.elems| != |v.elems|
    ensures r.Err? ==> r.error == LengthMismatch
    ensures r.Ok? ==> IsElementwise(Add, u.elems, v.elems, r.value.elems)
  {
    OperateVectors(u.elems, v.elems, Add)
  }

  function VectorSub(u: Vector, v: Vector): (r: Result<Vector>)
    ensures r.Err? <==> |u.elems| != |v.elems|
    ensures r.Err? ==> r.error == LengthMismatch
    ensures r.Ok? ==> IsElementwise(Sub, u.elems, v.elems, r.value.elems)
  {
    OperateVectors(u.elems, v.elems, Sub)
  }

  function VectorMul(u: Vector, v: Vector): (r: Result<Vector>)
    ensures r.Err? <==> |u.elems| != |v.elems|
    ensures r.Err? ==> r.error == LengthMismatch
    ensures r.Ok? ==> IsElementwise(Mul, u.elems, v.elems, r.value.elems)
  {
    OperateVectors(u.elems, v.elems, Mul)
  }

  function VectorDiv(u: Vector, v: Vector): (r: Result<Vector>)
    ensures r.Err? <==> |u.elems| != |v.elems| || HasZero(v.elems)
    ensures |u.elems| != |v.elems| ==> r.error == LengthMismatch
    ensures |u.elems| == |v.elems| && r.Err? ==> r.error == DivisionByZero
    ensures r.Ok? ==> IsElementwise(Div, u.elems, v.elems, r.value.elems)
  {
    OperateVectors(u.elems, v.elems, Div)
  }

  function Len(v: Vector): nat {
    |v.elems|
  }

  /** A successful elementwise operation keeps the common length of its operands. */
  lemma OperationsKeepLen(u: Vector, v: Vector, op: VectorOp)
    requires OperateVectors(u.elems, v.elems, op).Ok?
    ensures Len(OperateVectors(u.elems, v.elems, op).value) == Len(u) == Len(v)
  {
  }

  /** Sum of pairwise products, folded left to right from zero. */
  function Dot(a: seq<real>, b: seq<real>): real
    requires |a| == |b|
    decreases |a|
  {
    if |a| == 0 then 0.0
    else Dot(a[..|a| - 1], b[..|b| - 1]) + a[|a| - 1] * b[|b| - 1]
  }

  /** Sum of squares, folded left to right from zero. */
  function SumSquares(a: seq<real>): real
    decreases |a|
  {
    if |a| == 0 then 0.0
    else SumSquares(a[..|a| - 1]) + a[|a| - 1] * a[|a| - 1]
  }

  /** Extending both prefixes by one position adds that position's product. */
  lemma DotStep(a: seq<real>, b: seq<real>, k: nat)
    requires |a| == |b| && k < |a|
    ensures Dot(a[..k + 1], b[..k + 1]) == Dot(a[..k], b[..k]) + a[k] * b[k]
  {
    assert a[..k + 1][..k] == a[..k];
    assert b[..k + 1][..k] == b[..k];
  }

  /** The dot product with a zero vector is zero. */
  lemma {:induction false} DotWithZeroVector(a: seq<real>, b: seq<real>)
    requires |a| == |b| && IsZeroVector(a)
    ensures Dot(a, b) == 0.0
    decreases |a|
  {
    if |a| > 0 {
      DotWithZeroVector(a[..|a| - 1], b[..|b| - 1]);
    }
  }

  lemma {:induction false} DotSymmetric(a: seq<real>, b: seq<real>)
    requires |a| == |b|
    ensures Dot(a, b) == Dot(b, a)
    decreases |a|
  {
    if |a| > 0 {
      DotSymmetric(a[..|a| - 1], b[..|b| - 1]);
    }
  }

  lemma {:induction false} SumSquaresIsSelfDot(a: seq<real>)
    ensures SumSquares(a) == Dot(a, a)
    decreases |a|
  {
    if |a| > 0 {
      SumSquaresIsSelfDot(a[..|a| - 1]);
    }
  }

  /** Sign of the product of two equal reals, that is, of a square: never
      negative, and zero exactly when the factor is.

      Here and in ScaledSquareStep, CancelSquare and QuotientOfSquare a square
      is written `x * y` with `x == y` required, rather than `x * x`: callers
      pass the same term twice, so the solver matches the lemma against the
      goal as it stands and never has to rewrite an equality inside a
      nonlinear product, which it does not do reliably. */
  lemma SquareSign(x: real, y: real)
    requires x == y
    ensures 0.0 <= x * y
    ensures x == 0.0 || x * y > 0.0
    ensures x != 0.0 || x * y == 0.0
  {
  }

  /** Adding a square `q` of `x` to a non-negative sum `s`. */
  lemma AddSquare(s: real, q: real, x: real)
    requires 0.0 <= s && 0.0 <= q
    requires x == 0.0 || q > 0.0
    requires x != 0.0 || q == 0.0
    ensures 0.0 <= s + q
    ensures s + q == 0.0 <==> s == 0.0 && x == 0.0
  {
  }

  /** A sum of squares is never negative, and it is zero exactly on the zero vector. */
  lemma {:induction false} SumSquaresZeroIff(a: seq<real>)
    ensures 0.0 <= SumSquares(a)
    ensures SumSquares(a) == 0.0 <==> IsZeroVector(a)
    decreases |a|
  {
    if |a| > 0 {
      SumSquaresZeroIff(a[..|a| - 1]);
      SquareSign(a[|a| - 1], a[|a| - 1]);
      AddSquare(SumSquares(a[..|a| - 1]), a[|a| - 1] * a[|a| - 1], a[|a| - 1]);
      assert IsZeroVector(a) <==> IsZeroVector(a[..|a| - 1]) && a[|a| - 1] == 0.0 by {
        assert forall i :: 0 <= i < |a| - 1 ==> a[i] == a[..|a| - 1][i];
      }
    }
  }

  function DotProduct(u: Vector, v: Vector): (r: Result<real>)
    ensures r.Err? <==> |u.elems| != |v.elems|
    ensures r.Err? ==> r.error == LengthMismatch
    ensures r.Ok? ==> r.value == Dot(u.elems, v.elems)
  {
    if |u.elems| != |v.elems| then Err(LengthMismatch)
    else Ok(Dot(u.elems, v.elems))
  }

  lemma DotProductExample()
    ensures DotProduct(Vector([1.0, 2.0, 3.0]), Vector([1.0, 2.0, 3.0])) == Ok(14.0)
  {
    var a := [1.0, 2.0, 3.0];
    assert [1.0][..0] == [];
    assert Dot([1.0], [1.0]) == 1.0;
    assert [1.0, 2.0][..1] == [1.0];
    assert Dot([1.0, 2.0], [1.0, 2.0]) == 5.0;
    assert a[..2] == [1.0, 2.0];
  }

  function Norm(v: Vector, sqrt: SqrtFn): (r: Result<real>)
    ensures r.Err? <==> |v.elems| == 0
    ensures r.Err? ==> r.error == EmptyVector
    ensures r.Ok? ==> 0.0 <= r.value
    ensures r.Ok? ==> (r.value == 0.0 <==> IsZeroVector(v.elems))
  {
    if |v.elems| == 0 then Err(EmptyVector)
    else
      SumSquaresZeroIff(v.elems);
      Ok(sqrt(SumSquares(v.elems)))
  }

  /** With an exact square root, the squared norm is the vector's dot product with itself. */
  lemma NormSquaredIsSelfDot(v: Vector, sqrt: SqrtFn)
    requires IsExactSqrt(sqrt) && |v.elems| > 0
    ensures Norm(v, sqrt).value * Norm(v, sqrt).value == DotProduct(v, v).value
  {
    var s := SumSquares(v.elems);
    SumSquaresZeroIff(v.elems);
    SumSquaresIsSelfDot(v.elems);
    assert sqrt(s) * sqrt(s) == s;
  }

  /** Every element divided by `n`. */
  function DivideBy(a: seq<real>, n: real): (r: seq<real>)
    requires n != 0.0
    ensures |r| == |a|
  {
    seq(|a|, i requires 0 <= i < |a| => a[i] / n)
  }

  /** Multiplying an element of the quotient by `n` gives the original element back. */
  lemma DivideByInverse(a: seq<real>, n: real)
    requires n != 0.0
    ensures forall i :: 0 <= i < |a| ==> DivideBy(a, n)[i] * n == a[i]
  {
  }

  function UnitVect(v: Vector, sqrt: SqrtFn): (r: Result<Vector>)
    ensures r.Err? <==> IsZeroVector(v.elems)
    ensures |v.elems| == 0 ==> r == Err(EmptyVector)
    ensures |v.elems| > 0 && r.Err? ==> r.error == ZeroNormalization
    ensures r.Ok? ==> |r.value.elems| == |v.elems|
  {
    if |v.elems| == 0 then Err(EmptyVector)
    else
      var n := Norm(v, sqrt).value;
      if n == 0.0 then Err(ZeroNormalization)
      else Ok(Vector(DivideBy(v.elems, n)))
  }

  /** Scaling the unit vector by the norm gives the original vector back. */
  lemma UnitVectScalesBack(v: Vector, sqrt: SqrtFn)
    requires !IsZeroVector(v.elems)
    ensures forall i :: 0 <= i < |v.elems| ==>
              UnitVect(v, sqrt).value.elems[i] * Norm(v, sqrt).value == v.elems[i]
  {
    DivideByInverse(v.elems, Norm(v, sqrt).value);
  }

  /** One step of DotDivideBy: if `s * n` is `t` and `q * n` is `y`, then
      `(s + x * q) * n` is `t + x * y`. */
  lemma ScaledProductStep(s: real, t: real, x: real, q: real, y: real, n: real)
    requires s * n == t && q * n == y
    ensures (s + x * q) * n == t + x * y
  {
    assert (x * q) * n == x * (q * n);
  }

  /** Dividing the second operand by `n` divides the dot product by `n`. */
  lemma {:induction false} DotDivideBy(a: seq<real>, b: seq<real>, n: real)
    requires |a| == |b| && n != 0.0
    ensures Dot(a, DivideBy(b, n)) * n == Dot(a, b)
    decreases |a|
  {
    if |a| > 0 {
      var k := |a| - 1;
      var w := DivideBy(b, n);
      assert w[..k] == DivideBy(b[..k], n);
      DotDivideBy(a[..k], b[..k], n);
      DivideByInverse(b, n);
      ScaledProductStep(Dot(a[..k], w[..k]), Dot(a[..k], b[..k]), a[k], w[k], b[k], n);
    }
  }

  /** One step of SumSquaresDivideBy: if `s * n²` is `t` and `q * n` is `x`,
      then `(s + q²) * n²` is `t + x²`. Equal pairs of arguments stand for squares. */
  lemma ScaledSquareStep(s: real, t: real, q: real, q': real, x: real, x': real, n: real, n': real)
    requires q == q' && x == x' && n == n'
    requires s * (n * n') == t && q * n == x
    ensures (s + q * q') * (n * n') == t + x * x'
  {
    assert (q * q') * (n * n') == (q * n) * (q' * n');
  }

  /** Dividing every element by `n` divides the sum of squares by `n * n`. */
  lemma {:induction false} SumSquaresDivideBy(a: seq<real>, n: real)
    requires n != 0.0
    ensures SumSquares(DivideBy(a, n)) * (n * n) == SumSquares(a)
    decreases |a|
  {
    if |a| > 0 {
      var k := |a| - 1;
      var w := DivideBy(a, n);
      assert w[..k] == DivideBy(a[..k], n);
      SumSquaresDivideBy(a[..k], n);
      DivideByInverse(a, n);
      ScaledSquareStep(SumSquares(w[..k]), SumSquares(a[..k]), w[k], w[k], a[k], a[k], n, n);
    }
  }

  /** A non-negative real whose square is one is one. */
  lemma UnitRoot(s: real)
    requires 0.0 <= s && s * s == 1.0
    ensures s == 1.0
  {
    if s < 1.0 {
      SquareBelowOne(s);
      assert false;
    } else if s > 1.0 {
      assert false;
    }
  }

  lemma SquareBelowOne(s: real)
    requires 0.0 <= s < 1.0
    ensures s * s < 1.0
  {
    assert s * s <= s * 1.0;
  }

  /** A product with a non-zero factor is zero only when the other factor is. */
  lemma ZeroFactor(a: real, b: real)
    requires a * b == 0.0 && b != 0.0
    ensures a == 0.0
  {
  }

  /** If `q` times the square `n * n'` is that square, `q` is one. */
  lemma CancelSquare(q: real, n: real, n': real, s: real)
    requires n == n' && s != 0.0 && n * n' == s && q * (n * n') == s
    ensures q == 1.0
  {
    assert (q - 1.0) * (n * n') == 0.0;
    ZeroFactor(q - 1.0, n * n');
  }

  /** Dividing by a root of the sum of squares leaves a sum of squares of one. */
  lemma UnitSumSquares(a: seq<real>, root: real)
    requires root != 0.0 && SumSquares(a) != 0.0 && root * root == SumSquares(a)
    ensures SumSquares(DivideBy(a, root)) == 1.0
  {
    SumSquaresDivideBy(a, root);
    CancelSquare(SumSquares(DivideBy(a, root)), root, root, SumSquares(a));
  }

  /** An exact square root maps one to one. */
  lemma ExactSqrtOfOne(sqrt: SqrtFn)
    requires IsExactSqrt(sqrt)
    ensures sqrt(1.0) == 1.0
  {
    UnitRoot(sqrt(1.0));
  }

  /** With an exact square root, the unit vector of a non-zero vector has
      norm one. */
  lemma UnitVectHasUnitNorm(v: Vector, sqrt: SqrtFn)
    requires IsExactSqrt(sqrt) && !IsZeroVector(v.elems)
    ensures UnitVect(v, sqrt).Ok?
    ensures Norm(UnitVect(v, sqrt).value, sqrt) == Ok(1.0)
  {
    var s := SumSquares(v.elems);
    var root := sqrt(s);
    assert s != 0.0 && root * root == s by {
      SumSquaresZeroIff(v.elems);
    }
    var w := DivideBy(v.elems, root);
    assert UnitVect(v, sqrt) == Ok(Vector(w));
    UnitSumSquares(v.elems, root);
    ExactSqrtOfOne(sqrt);
  }

  function ScalarProjection(u: Vector, v: Vector, sqrt: SqrtFn): (r: Result<real>)
    ensures r.Err? <==> |u.elems| != |v.elems| || IsZeroVector(v.elems)
    ensures |u.elems| != |v.elems| ==> r.error == LengthMismatch
    ensures |u.elems| == |v.elems| == 0 ==> r == Err(EmptyVector)
    ensures |u.elems| == |v.elems| > 0 && r.Err? ==> r.error == ZeroNormalization
    ensures r.Ok? ==> r.value * Norm(v, sqrt).value == Dot(u.elems, v.elems)
  {
    if |u.elems| != |v.elems| then Err(LengthMismatch)
    else
      var unit :- UnitVect(v, sqrt);
      DotDivideBy(u.elems, v.elems, Norm(v, sqrt).value);
      DotProduct(u, unit)
  }

  /** `d` divided by the product `x * y`, as cosine similarity computes it. */
  function Quotient(d: real, x: real, y: real): real
    requires x != 0.0 && y != 0.0
  {
    d / (x * y)
  }

  function CosineSimilarity(u: Vector, v: Vector, sqrt: SqrtFn): (r: Result<real>)
    ensures r.Err? <==> |u.elems| != |v.elems| || IsZeroVector(u.elems) || IsZeroVector(v.elems)
    ensures |u.elems| != |v.elems| ==> r.error == LengthMismatch
    ensures |u.elems| == |v.elems| == 0 ==> r == Err(EmptyVector)
    ensures |u.elems| == |v.elems| > 0 && r.Err? ==> r.error == ZeroSimilarity
  {
    if |u.elems| != |v.elems| then Err(LengthMismatch)
    else
      var dot := DotProduct(u, v).value;
      var nu := Norm(u, sqrt);
      if nu.Err? then Err(nu.error)
      else
      var normU := nu.value;
      var normV := Norm(v, sqrt).value;
      if normU == 0.0 || normV == 0.0 then Err(ZeroSimilarity)
      else Ok(Quotient(dot, normU, normV))
  }

  /** For equally long non-zero vectors the similarity is the dot product over
      the product of the norms. */
  lemma CosineSimilarityValue(u: Vector, v: Vector, sqrt: SqrtFn)
    requires |u.elems| == |v.elems| && !IsZeroVector(u.elems) && !IsZeroVector(v.elems)
    ensures Norm(u, sqrt).value != 0.0 && Norm(v, sqrt).value != 0.0
    ensures CosineSimilarity(u, v, sqrt)
         == Ok(Quotient(DotProduct(u, v).value, Norm(u, sqrt).value, Norm(v, sqrt).value))
  {
  }

  /** Swapping the two factors of the divisor leaves the quotient unchanged. */
  lemma QuotientSymmetric(d: real, x: real, y: real)
    requires x != 0.0 && y != 0.0
    ensures Quotient(d, x, y) == Quotient(d, y, x)
  {
    assert x * y == y * x;
  }

  /** Cosine similarity does not depend on the order of its operands. */
  lemma CosineSimilaritySymmetric(u: Vector, v: Vector, sqrt: SqrtFn)
    ensures CosineSimilarity(u, v, sqrt) == CosineSimilarity(v, u, sqrt)
  {
    if |u.elems| == |v.elems| && !IsZeroVector(u.elems) && !IsZeroVector(v.elems) {
      DotSymmetric(u.elems, v.elems);
      CosineSimilarityValue(u, v, sqrt);
      CosineSimilarityValue(v, u, sqrt);
      assert DotProduct(u, v) == DotProduct(v, u);
      QuotientSymmetric(DotProduct(u, v).value, Norm(u, sqrt).value, Norm(v, sqrt).value);
    }
  }

  /** Multiplying the quotient back by its divisor recovers the dividend. */
  lemma QuotientTimesDivisor(d: real, x: real, y: real)
    requires x != 0.0 && y != 0.0
    ensures Quotient(d, x, y) * (x * y) == d
  {
  }

  /** The similarity times the product of the norms is the dot product. */
  lemma CosineSimilarityScalesBack(u: Vector, v: Vector, sqrt: SqrtFn)
    requires |u.elems| == |v.elems| && !IsZeroVector(u.elems) && !IsZeroVector(v.elems)
    ensures CosineSimilarity(u, v, sqrt).value * (Norm(u, sqrt).value * Norm(v, sqrt).value)
         == Dot(u.elems, v.elems)
  {
    CosineSimilarityValue(u, v, sqrt);
    QuotientTimesDivisor(DotProduct(u, v).value, Norm(u, sqrt).value, Norm(v, sqrt).value);
  }

  /** A non-zero quotient of a square by itself is one. */
  lemma QuotientOfSquare(d: real, n: real, n': real)
    requires n == n' && n != 0.0 && d != 0.0 && n * n' == d
    ensures Quotient(d, n, n') == 1.0
  {
    var q := Quotient(d, n, n');
    assert q * (n * n') == d;
    assert (q - 1.0) * (n * n') == 0.0;
    ZeroFactor(q - 1.0, n * n');
  }

  /** With an exact square root, a non-zero vector has cosine similarity one
      with itself. */
  lemma CosineSimilarityWithSelf(v: Vector, sqrt: SqrtFn)
    requires IsExactSqrt(sqrt) && !IsZeroVector(v.elems)
    ensures CosineSimilarity(v, v, sqrt) == Ok(1.0)
  {
    var s := SumSquares(v.elems);
    var root := sqrt(s);
    assert s != 0.0 && root * root == s by {
      SumSquaresZeroIff(v.elems);
    }
    SumSquaresIsSelfDot(v.elems);
    CosineSimilarityValue(v, v, sqrt);
    QuotientOfSquare(DotProduct(v, v).value, root, root);
  }
}
