/** Dense real vectors and matrices with the few operations numpy performs in the
    co-clustering loop: sums along an axis, dot products, matrix products,
    transposition and the trace. Matrices are sequences of rows. */
module Matrices {

  type Vector = seq<real>
  type Matrix = seq<seq<real>>

  /** `m` has `rows` rows of exactly `cols` entries each. */
  predicate IsMatrix(m: Matrix, rows: nat, cols: nat) {
    |m| == rows && forall i :: 0 <= i < |m| ==> |m[i]| == cols
  }

  function Sum(v: Vector): real {
    if |v| == 0 then 0.0 else Sum(v[..|v| - 1]) + v[|v| - 1]
  }

  function Zeros(n: nat): Vector {
    seq(n, _ => 0.0)
  }

  function Ones(n: nat): Vector {
    seq(n, _ => 1.0)
  }

  function Add(u: Vector, v: Vector): Vector
    requires |u| == |v|
  {
    seq(|u|, i requires 0 <= i < |u| => u[i] + v[i])
  }

  /** Element-wise (Hadamard) product. */
  function Mul(u: Vector, v: Vector): Vector
    requires |u| == |v|
  {
    seq(|u|, i requires 0 <= i < |u| => u[i] * v[i])
  }

  function Scale(c: real, v: Vector): Vector {
    seq(|v|, i requires 0 <= i < |v| => c * v[i])
  }

  function Dot(u: Vector, v: Vector): real
    requires |u| == |v|
  {
    Sum(Mul(u, v))
  }

  /** Column `j` of a matrix whose rows all have more than `j` entries. */
  function Col(m: Matrix, j: nat): Vector
    requires forall i :: 0 <= i < |m| ==> j < |m[i]|
  {
    seq(|m|, i requires 0 <= i < |m| => m[i][j])
  }

  function Transpose(m: Matrix, cols: nat): Matrix
    requires IsMatrix(m, |m|, cols)
  {
    seq(cols, j requires 0 <= j < cols => Col(m, j))
  }

  /** `X.sum(axis=1)`. */
  function RowSums(m: Matrix): Vector {
    seq(|m|, i requires 0 <= i < |m| => Sum(m[i]))
  }

  /** `X.sum(axis=0)`. */
  function ColSums(m: Matrix, cols: nat): Vector
    requires IsMatrix(m, |m|, cols)
  {
    seq(cols, j requires 0 <= j < cols => Sum(Col(m, j)))
  }

  /** `X.sum()`, taken row by row. */
  function Total(m: Matrix): real {
    Sum(RowSums(m))
  }

  /** The product `a @ m` of an r x |m| matrix and an |m| x p matrix. */
  function MatMul(a: Matrix, m: Matrix, p: nat): Matrix
    requires IsMatrix(m, |m|, p)
    requires forall i :: 0 <= i < |a| ==> |a[i]| == |m|
  {
    seq(|a|, i requires 0 <= i < |a| => seq(p, j requires 0 <= j < p => Dot(a[i], Col(m, j))))
  }

  function Trace(m: Matrix): real
    requires IsMatrix(m, |m|, |m|)
  {
    Sum(seq(|m|, a requires 0 <= a < |m| => m[a][a]))
  }

  // ---------------------------------------------------------------------------
  // Linearity of sums

  lemma {:induction false} SumZeros(n: nat)
    ensures Sum(Zeros(n)) == 0.0
  {
    if n > 0 {
      assert Zeros(n)[..n - 1] == Zeros(n - 1);
      SumZeros(n - 1);
    }
  }

  lemma {:induction false} SumOnes(n: nat)
    ensures Sum(Ones(n)) == n as real
  {
    if n > 0 {
      assert Ones(n)[..n - 1] == Ones(n - 1);
      SumOnes(n - 1);
    }
  }

  lemma {:induction false} SumAdd(u: Vector, v: Vector)
    requires |u| == |v|
    ensures Sum(Add(u, v)) == Sum(u) + Sum(v)
  {
    if |u| > 0 {
      var m := |u| - 1;
      assert Add(u, v)[..m] == Add(u[..m], v[..m]);
      SumAdd(u[..m], v[..m]);
    }
  }

  lemma {:induction false} SumScale(c: real, v: Vector)
    ensures Sum(Scale(c, v)) == c * Sum(v)
  {
    if |v| > 0 {
      var m := |v| - 1;
      forall i | 0 <= i < m
        ensures Scale(c, v)[..m][i] == Scale(c, v[..m])[i]
      {
      }
      assert Scale(c, v)[..m] == Scale(c, v[..m]);
      SumScale(c, v[..m]);
    }
  }

  /** Sum(u - c * v) == Sum(u) - c * Sum(v). */
  lemma SumSubScaled(u: Vector, c: real, v: Vector)
    requires |u| == |v|
    ensures Sum(seq(|u|, i requires 0 <= i < |u| => u[i] - c * v[i])) == Sum(u) - c * Sum(v)
  {
    var s := seq(|u|, i requires 0 <= i < |u| => u[i] - c * v[i]);
    assert s == Add(u, Scale(-c, v));
    SumAdd(u, Scale(-c, v));
    SumScale(-c, v);
  }

  /** Summing a vector that is zero everywhere except at `t` gives the entry at `t`. */
  lemma {:induction false} SumSingle(v: Vector, t: nat)
    requires t < |v|
    ensures Sum(seq(|v|, a requires 0 <= a < |v| => if a == t then v[a] else 0.0)) == v[t]
  {
    var s := seq(|v|, a requires 0 <= a < |v| => if a == t then v[a] else 0.0);
    var m := |v| - 1;
    if t == m {
      assert s[..m] == Zeros(m);
      SumZeros(m);
    } else {
      assert s[..m] == seq(|v[..m]|, a requires 0 <= a < |v[..m]| => if a == t then v[..m][a] else 0.0);
      SumSingle(v[..m], t);
    }
  }

  // ---------------------------------------------------------------------------
  // Dot products

  lemma DotComm(u: Vector, v: Vector)
    requires |u| == |v|
    ensures Dot(u, v) == Dot(v, u)
  {
    assert Mul(u, v) == Mul(v, u);
  }

  lemma DotAddLeft(u: Vector, p: Vector, q: Vector)
    requires |u| == |p| == |q|
    ensures Dot(Add(u, p), q) == Dot(u, q) + Dot(p, q)
  {
    forall i | 0 <= i < |q|
      ensures Mul(Add(u, p), q)[i] == Add(Mul(u, q), Mul(p, q))[i]
    {
      assert (u[i] + p[i]) * q[i] == u[i] * q[i] + p[i] * q[i];
    }
    assert Mul(Add(u, p), q) == Add(Mul(u, q), Mul(p, q));
    SumAdd(Mul(u, q), Mul(p, q));
  }

  lemma DotZerosLeft(q: Vector)
    ensures Dot(Zeros(|q|), q) == 0.0
  {
    assert Mul(Zeros(|q|), q) == Zeros(|q|);
    SumZeros(|q|);
  }

  lemma DotOnesLeft(q: Vector)
    ensures Dot(Ones(|q|), q) == Sum(q)
  {
    assert Mul(Ones(|q|), q) == q;
  }

  lemma DotOnesRight(q: Vector)
    ensures Dot(q, Ones(|q|)) == Sum(q)
  {
    assert Mul(q, Ones(|q|)) == q;
  }

  // ---------------------------------------------------------------------------
  // Column sums and exchanging the order of summation

  /** Column sums of a matrix with one more row add that row. */
  lemma ColSumsSnoc(m: Matrix, cols: nat)
    requires |m| > 0 && IsMatrix(m, |m|, cols)
    ensures ColSums(m, cols) == Add(ColSums(m[..|m| - 1], cols), m[|m| - 1])
  {
    var r := |m| - 1;
    forall j | 0 <= j < cols
      ensures ColSums(m, cols)[j] == ColSums(m[..r], cols)[j] + m[r][j]
    {
      assert Col(m, j)[..r] == Col(m[..r], j);
    }
  }

  lemma {:induction false} ColSumsEmpty(m: Matrix, cols: nat)
    requires |m| == 0
    ensures ColSums(m, cols) == Zeros(cols)
  {
  }

  /** Sum over rows `a` of `P[a] . q` is `(sum of the rows of P) . q`. */
  lemma {:induction false} SumOfDots(p: Matrix, q: Vector)
    requires IsMatrix(p, |p|, |q|)
    ensures Sum(seq(|p|, a requires 0 <= a < |p| => Dot(p[a], q))) == Dot(ColSums(p, |q|), q)
  {
    var s := seq(|p|, a requires 0 <= a < |p| => Dot(p[a], q));
    if |p| == 0 {
      ColSumsEmpty(p, |q|);
      DotZerosLeft(q);
    } else {
      var r := |p| - 1;
      assert s[..r] == seq(|p[..r]|, a requires 0 <= a < |p[..r]| => Dot(p[..r][a], q));
      SumOfDots(p[..r], q);
      ColSumsSnoc(p, |q|);
      DotAddLeft(ColSums(p[..r], |q|), p[r], q);
    }
  }

  /** The total of a matrix can be taken row-first or column-first. */
  lemma RowColTotal(m: Matrix, cols: nat)
    requires IsMatrix(m, |m|, cols)
    ensures Total(m) == Sum(ColSums(m, cols))
  {
    forall i | 0 <= i < |m|
      ensures Sum(m[i]) == Dot(m[i], Ones(cols))
    {
      DotOnesRight(m[i]);
    }
    assert RowSums(m) == seq(|m|, a requires 0 <= a < |m| => Dot(m[a], Ones(cols)));
    SumOfDots(m, Ones(cols));
    DotOnesRight(ColSums(m, cols));
  }

  // ---------------------------------------------------------------------------
  // Products with matrices whose rows (or columns) sum to one

  /** Right-multiplying by a matrix whose rows each sum to 1 keeps every row sum of `a`. */
  lemma MatMulKeepsRowSums(a: Matrix, m: Matrix, p: nat)
    requires IsMatrix(m, |m|, p)
    requires IsMatrix(a, |a|, |m|)
    requires forall t :: 0 <= t < |m| ==> Sum(m[t]) == 1.0
    ensures forall i :: 0 <= i < |a| ==> Sum(MatMul(a, m, p)[i]) == Sum(a[i])
  {
    var mt := Transpose(m, p);
    assert ColSums(mt, |m|) == Ones(|m|) by {
      forall t | 0 <= t < |m|
        ensures ColSums(mt, |m|)[t] == 1.0
      {
        assert Col(mt, t) == m[t];
      }
    }
    forall i | 0 <= i < |a|
      ensures Sum(MatMul(a, m, p)[i]) == Sum(a[i])
    {
      forall b | 0 <= b < p
        ensures Dot(a[i], Col(m, b)) == Dot(mt[b], a[i])
      {
        DotComm(a[i], Col(m, b));
      }
      assert MatMul(a, m, p)[i] == seq(|mt|, b requires 0 <= b < |mt| => Dot(mt[b], a[i]));
      SumOfDots(mt, a[i]);
      DotOnesLeft(a[i]);
    }
  }

  /** Left-multiplying by a matrix whose columns each sum to 1 keeps every column sum of `m`. */
  lemma MatMulKeepsColSums(l: Matrix, m: Matrix, p: nat)
    requires IsMatrix(m, |m|, p)
    requires IsMatrix(l, |l|, |m|)
    requires ColSums(l, |m|) == Ones(|m|)
    ensures ColSums(MatMul(l, m, p), p) == ColSums(m, p)
  {
    var lm := MatMul(l, m, p);
    forall j | 0 <= j < p
      ensures ColSums(lm, p)[j] == ColSums(m, p)[j]
    {
      assert Col(lm, j) == seq(|l|, a requires 0 <= a < |l| => Dot(l[a], Col(m, j)));
      SumOfDots(l, Col(m, j));
      DotOnesLeft(Col(m, j));
    }
  }

  // ---------------------------------------------------------------------------
  // Signs

  /** Every entry of `m` is at least zero. */
  predicate NonNegative(m: Matrix) {
    forall i, j :: 0 <= i < |m| && 0 <= j < |m[i]| ==> m[i][j] >= 0.0
  }

  /** Some entry of `m` is strictly positive. */
  predicate HasPositive(m: Matrix) {
    exists i, j :: 0 <= i < |m| && 0 <= j < |m[i]| && m[i][j] > 0.0
  }

  lemma {:induction false} SumNonNegative(v: Vector)
    requires forall s :: 0 <= s < |v| ==> v[s] >= 0.0
    ensures Sum(v) >= 0.0
  {
    if |v| > 0 {
      var m := |v| - 1;
      assert forall s :: 0 <= s < m ==> v[..m][s] == v[s];
      SumNonNegative(v[..m]);
    }
  }

  /** A sum of non-negative terms is at least each of its terms. */
  lemma {:induction false} SumAtLeastEntry(v: Vector, t: nat)
    requires forall s :: 0 <= s < |v| ==> v[s] >= 0.0
    requires t < |v|
    ensures Sum(v) >= v[t]
  {
    var m := |v| - 1;
    assert forall s :: 0 <= s < m ==> v[..m][s] == v[s];
    if t < m {
      SumAtLeastEntry(v[..m], t);
    }
    SumNonNegative(v[..m]);
  }

  /** A positive sum has a positive term. */
  lemma {:induction false} PositiveSumHasPositiveEntry(v: Vector)
    requires Sum(v) > 0.0
    ensures exists t :: 0 <= t < |v| && v[t] > 0.0
  {
    var m := |v| - 1;
    if v[m] <= 0.0 {
      PositiveSumHasPositiveEntry(v[..m]);
      var t :| 0 <= t < m && v[..m][t] > 0.0;
      assert v[t] > 0.0;
    }
  }

  /** The total of a non-negative matrix is at least each of its entries. */
  lemma TotalAtLeastEntry(m: Matrix, i: nat, j: nat)
    requires NonNegative(m) && i < |m| && j < |m[i]|
    ensures Total(m) >= m[i][j]
  {
    SumAtLeastEntry(m[i], j);
    forall r | 0 <= r < |m|
      ensures RowSums(m)[r] >= 0.0
    {
      SumNonNegative(m[r]);
    }
    SumAtLeastEntry(RowSums(m), i);
  }

  /** For a non-negative matrix, a positive total and a positive entry go together. */
  lemma PositiveTotal(m: Matrix)
    requires NonNegative(m)
    ensures Total(m) > 0.0 <==> HasPositive(m)
  {
    if Total(m) > 0.0 {
      PositiveSumHasPositiveEntry(RowSums(m));
      var i :| 0 <= i < |m| && RowSums(m)[i] > 0.0;
      PositiveSumHasPositiveEntry(m[i]);
    }
    if HasPositive(m) {
      var i, j :| 0 <= i < |m| && 0 <= j < |m[i]| && m[i][j] > 0.0;
      TotalAtLeastEntry(m, i, j);
    }
  }
}
