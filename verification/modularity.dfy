/** The modularity matrix B = X - r c^T / N (`_compute_modularity_matrix`) and the
    modularity numerator trace(Z^T B W) scored in the alternating loop. */
module Modularity {
  import opened Results
  import opened Matrices
  import opened Partitions

  /** A modularity matrix `b` together with the mass `n` it was built from. */
  datatype Built = Built(b: Matrix, mass: real)

  /** B[i][j] = X[i][j] - r[i] c[j] / N with r, c the row and column sums and N the total.
      A matrix of zero mass has no modularity matrix: the source divides by N = 0 and its
      modularity becomes NaN, which `fit` reports as an error. */
  function ComputeModularityMatrix(x: Matrix, n: nat, d: nat): (r: Result<Built>)
    requires IsMatrix(x, n, d)
    ensures r.Success? <==> Total(x) != 0.0
    ensures r.Failure? ==> r.error == NumericalDegeneracy
    ensures r.Success? ==> r.value.mass == Total(x) && IsMatrix(r.value.b, n, d)
    ensures r.Success? ==> forall i :: 0 <= i < n ==> Sum(r.value.b[i]) == 0.0
    ensures r.Success? ==> forall j :: 0 <= j < d ==> Sum(Col(r.value.b, j)) == 0.0
  {
    var mass := Total(x);
    if mass == 0.0 then Failure(NumericalDegeneracy)
    else
      var rows := RowSums(x);
      var cols := ColSums(x, d);
      var b := seq(n, i requires 0 <= i < n => seq(d, j requires 0 <= j < d => x[i][j] - rows[i] * cols[j] / mass));
      ModularityRowsSumToZero(x, n, d, b);
      ModularityColsSumToZero(x, n, d, b);
      Success(Built(b, mass))
  }

  /** Every row of X - r c^T / N sums to zero. */
  lemma ModularityRowsSumToZero(x: Matrix, n: nat, d: nat, b: Matrix)
    requires IsMatrix(x, n, d) && Total(x) != 0.0
    requires b == seq(n, i requires 0 <= i < n => seq(d, j requires 0 <= j < d =>
                   x[i][j] - RowSums(x)[i] * ColSums(x, d)[j] / Total(x)))
    ensures forall i :: 0 <= i < n ==> Sum(b[i]) == 0.0
  {
    var mass, rows, cols := Total(x), RowSums(x), ColSums(x, d);
    RowColTotal(x, d);
    forall i | 0 <= i < n
      ensures Sum(b[i]) == 0.0
    {
      assert b[i] == seq(|x[i]|, j requires 0 <= j < |x[i]| => x[i][j] - rows[i] * cols[j] / mass);
      SumMinusOuter(x[i], rows[i], cols, mass);
    }
  }

  /** Every column of X - r c^T / N sums to zero. */
  lemma ModularityColsSumToZero(x: Matrix, n: nat, d: nat, b: Matrix)
    requires IsMatrix(x, n, d) && Total(x) != 0.0
    requires b == seq(n, i requires 0 <= i < n => seq(d, j requires 0 <= j < d =>
                   x[i][j] - RowSums(x)[i] * ColSums(x, d)[j] / Total(x)))
    ensures forall j :: 0 <= j < d ==> Sum(Col(b, j)) == 0.0
  {
    var mass, rows, cols := Total(x), RowSums(x), ColSums(x, d);
    forall j | 0 <= j < d
      ensures Sum(Col(b, j)) == 0.0
    {
      var u := Col(x, j);
      var e := seq(|u|, i requires 0 <= i < |u| => u[i] - cols[j] * rows[i] / mass);
      forall i | 0 <= i < n
        ensures Col(b, j)[i] == e[i]
      {
        assert rows[i] * cols[j] == cols[j] * rows[i];
      }
      assert Col(b, j) == e;
      SumMinusOuter(u, cols[j], rows, mass);
    }
  }

  /** Sum over t of (u[t] - p v[t] / m) == Sum(u) - p Sum(v) / m; with Sum(u) == p and Sum(v) == m this is 0. */
  lemma SumMinusOuter(u: Vector, p: real, v: Vector, m: real)
    requires |u| == |v| && m != 0.0
    ensures Sum(seq(|u|, t requires 0 <= t < |u| => u[t] - p * v[t] / m)) == Sum(u) - (p / m) * Sum(v)
    ensures Sum(u) == p && Sum(v) == m ==> Sum(seq(|u|, t requires 0 <= t < |u| => u[t] - p * v[t] / m)) == 0.0
  {
    var c := p / m;
    var s1 := seq(|u|, t requires 0 <= t < |u| => u[t] - p * v[t] / m);
    var s2 := seq(|u|, t requires 0 <= t < |u| => u[t] - c * v[t]);
    forall t | 0 <= t < |u|
      ensures s1[t] == s2[t]
    {
      DivIsScale(p, v[t], m);
    }
    assert s1 == s2;
    SumSubScaled(u, c, v);
    ScaleCancels(p, m);
  }

  lemma ScaleCancels(p: real, m: real)
    requires m != 0.0
    ensures p - (p / m) * m == 0.0
  {
  }

  lemma DivIsScale(p: real, q: real, m: real)
    requires m != 0.0
    ensures p * q / m == (p / m) * q
  {
  }

  /** trace(Z^T M) for one-hot Z adds up, row by row, the entry of M at the row's label. */
  lemma TraceOfOneHotProduct(m: Matrix, z: Labels, k: nat)
    requires IsMatrix(m, |z|, k) && ValidLabels(z, k)
    ensures Trace(MatMul(Transpose(OneHot(z, k), k), m, k))
         == Sum(seq(|z|, i requires 0 <= i < |z| => m[i][z[i]]))
  {
    var n := |z|;
    var zh := OneHot(z, k);
    var p := MatMul(Transpose(zh, k), m, k);
    // h[a][i] = Z[i][a] * M[i][a]
    var h := seq(k, a requires 0 <= a < k => Mul(Col(zh, a), Col(m, a)));
    forall a | 0 <= a < k
      ensures p[a][a] == RowSums(h)[a]
    {
      assert Transpose(zh, k)[a] == Col(zh, a);
    }
    assert seq(k, a requires 0 <= a < k => p[a][a]) == RowSums(h);
    RowColTotal(h, n);
    forall i | 0 <= i < n
      ensures ColSums(h, n)[i] == m[i][z[i]]
    {
      forall a | 0 <= a < k
        ensures Col(h, i)[a] == Mul(zh[i], m[i])[a]
      {
        assert h[a] == Mul(Col(zh, a), Col(m, a));
      }
      assert Col(h, i) == Mul(zh[i], m[i]);
      DotOneHotRow(z, k, i, m[i]);
    }
    assert ColSums(h, n) == seq(n, i requires 0 <= i < n => m[i][z[i]]);
  }

  /** The modularity numerator trace(Z^T BW), with Z encoding the first maximising column of
      every row of BW, is the sum over rows of the row maxima of BW. */
  lemma NumeratorIsSumOfRowMaxima(bw: Matrix, z: Labels, k: nat)
    requires k > 0 && IsMatrix(bw, |bw|, k) && |z| == |bw| && ValidLabels(z, k)
    requires forall i :: 0 <= i < |bw| ==> FirstMaxAt(bw[i], z[i])
    ensures Trace(MatMul(Transpose(OneHot(z, k), k), bw, k)) == Sum(RowMaxima(bw, k))
  {
    TraceOfOneHotProduct(bw, z, k);
    forall i | 0 <= i < |bw|
      ensures bw[i][z[i]] == Max(bw[i])
    {
      assert FirstMaxAt(bw[i], z[i]);
    }
    assert seq(|z|, i requires 0 <= i < |z| => bw[i][z[i]]) == RowMaxima(bw, k);
  }
}
