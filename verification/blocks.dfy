/** Block (co-cluster) statistics and the block-mean imputer:
    `summarize_blocks`, `get_block_counts` and `_impute_block_representative`. */
module Blocks {
  import opened Matrices
  import opened Partitions

  /** One matrix cell, as a pair of the index arrays `r_nan, c_nan`. */
  datatype Coord = Coord(row: nat, col: nat)

  predicate CoordsIn(cells: seq<Coord>, n: nat, d: nat) {
    forall t :: 0 <= t < |cells| ==> cells[t].row < n && cells[t].col < d
  }

  /** `z.T @ X @ wT`: the k x l matrix of block sums for row partition `zh` and column partition `wh`. */
  function SummarizeBlocks(x: Matrix, zh: Matrix, wh: Matrix, n: nat, d: nat, k: nat, l: nat): (s: Matrix)
    requires IsMatrix(x, n, d) && IsMatrix(zh, n, k) && IsMatrix(wh, d, l)
    ensures IsMatrix(s, k, l)
  {
    MatMul(MatMul(Transpose(zh, k), x, d), wh, l)
  }

  /** `z.sum(axis=0)[:, None] * wT.sum(axis=0)`: the outer product of the cluster sizes. */
  function GetBlockCounts(zh: Matrix, wh: Matrix, k: nat, l: nat): (c: Matrix)
    requires IsMatrix(zh, |zh|, k) && IsMatrix(wh, |wh|, l)
    ensures IsMatrix(c, k, l)
  {
    var rows := ColSums(zh, k);
    var cols := ColSums(wh, l);
    seq(k, a requires 0 <= a < k => seq(l, b requires 0 <= b < l => rows[a] * cols[b]))
  }

  /** X restricted to block (a, b): X[i][j] where z[i] == a and w[j] == b, zero elsewhere. */
  function Mask(x: Matrix, z: Labels, w: Labels, a: nat, b: nat): Matrix
    requires IsMatrix(x, |z|, |w|)
  {
    seq(|z|, i requires 0 <= i < |z| =>
      seq(|w|, j requires 0 <= j < |w| => if z[i] == a && w[j] == b then x[i][j] else 0.0))
  }

  /** Reference definition: the sum of X over the cells of block (a, b). */
  function BlockSum(x: Matrix, z: Labels, w: Labels, a: nat, b: nat): real
    requires IsMatrix(x, |z|, |w|)
  {
    Total(Mask(x, z, w, a, b))
  }

  /** `bc[bc == 0] = 1; s / bc`: the block representative values. */
  function BlockRepresentatives(s: Matrix, bc: Matrix, k: nat, l: nat): (rep: Matrix)
    requires IsMatrix(s, k, l) && IsMatrix(bc, k, l)
    ensures IsMatrix(rep, k, l)
    ensures forall a, b :: 0 <= a < k && 0 <= b < l && bc[a][b] != 0.0 ==> rep[a][b] * bc[a][b] == s[a][b]
    ensures forall a, b :: 0 <= a < k && 0 <= b < l && bc[a][b] == 0.0 ==> rep[a][b] == s[a][b]
  {
    seq(k, a requires 0 <= a < k => seq(l, b requires 0 <= b < l =>
      s[a][b] / (if bc[a][b] == 0.0 then 1.0 else bc[a][b])))
  }

  /** `_impute_block_representative`: every missing cell (i, j) is overwritten with the
      representative value of block (z[i], w[j]); every other cell keeps its value. */
  function ImputeBlockRepresentative(x: Matrix, zh: Matrix, wh: Matrix, z: Labels, w: Labels,
                                     n: nat, d: nat, k: nat, missing: seq<Coord>): (r: Matrix)
    requires IsMatrix(x, n, d) && IsMatrix(zh, n, k) && IsMatrix(wh, d, k)
    requires |z| == n && |w| == d && ValidLabels(z, k) && ValidLabels(w, k)
    requires CoordsIn(missing, n, d)
    ensures IsMatrix(r, n, d)
    ensures forall i, j :: 0 <= i < n && 0 <= j < d && Coord(i, j) !in missing ==> r[i][j] == x[i][j]
    ensures forall t :: 0 <= t < |missing| ==>
      r[missing[t].row][missing[t].col]
        == BlockRepresentatives(SummarizeBlocks(x, zh, wh, n, d, k, k), GetBlockCounts(zh, wh, k, k), k, k)
             [z[missing[t].row]][w[missing[t].col]]
    ensures |missing| == 0 ==> r == x
  {
    var rep := BlockRepresentatives(SummarizeBlocks(x, zh, wh, n, d, k, k), GetBlockCounts(zh, wh, k, k), k, k);
    var r := seq(n, i requires 0 <= i < n => seq(d, j requires 0 <= j < d =>
      if Coord(i, j) in missing then rep[z[i]][w[j]] else x[i][j]));
    assert |missing| == 0 ==> forall i :: 0 <= i < n ==> r[i] == x[i];
    r
  }

  // ---------------------------------------------------------------------------
  // Block sums

  /** Column j of the product Z^T X, for one-hot Z, sums column j of X over the rows labelled a. */
  lemma ZtXEntry(x: Matrix, z: Labels, k: nat, d: nat, a: nat, j: nat)
    requires IsMatrix(x, |z|, d) && a < k && j < d
    ensures MatMul(Transpose(OneHot(z, k), k), x, d)[a][j]
         == Sum(seq(|z|, i requires 0 <= i < |z| => if z[i] == a then x[i][j] else 0.0))
  {
    var zh := OneHot(z, k);
    assert Transpose(zh, k)[a] == Col(zh, a);
    DotOneHotCol(z, k, a, Col(x, j));
    assert seq(|z|, i requires 0 <= i < |z| => if z[i] == a then Col(x, j)[i] else 0.0)
        == seq(|z|, i requires 0 <= i < |z| => if z[i] == a then x[i][j] else 0.0);
  }

  /** Column j of the block mask is column j of X over the rows labelled a, when w[j] == b, and zero otherwise. */
  lemma MaskColumn(x: Matrix, z: Labels, w: Labels, a: nat, b: nat, j: nat)
    requires IsMatrix(x, |z|, |w|) && j < |w|
    ensures Sum(Col(Mask(x, z, w, a, b), j))
         == if w[j] == b then Sum(seq(|z|, i requires 0 <= i < |z| => if z[i] == a then x[i][j] else 0.0)) else 0.0
  {
    var m := Mask(x, z, w, a, b);
    if w[j] == b {
      assert Col(m, j) == seq(|z|, i requires 0 <= i < |z| => if z[i] == a then x[i][j] else 0.0);
    } else {
      assert Col(m, j) == Zeros(|z|);
      SumZeros(|z|);
    }
  }

  /** The block sum for one block: entry (a, b) of Z^T X W is the sum of X over block (a, b). */
  lemma SummarizeBlockEntry(x: Matrix, z: Labels, w: Labels, k: nat, a: nat, b: nat)
    requires IsMatrix(x, |z|, |w|) && a < k && b < k
    ensures SummarizeBlocks(x, OneHot(z, k), OneHot(w, k), |z|, |w|, k, k)[a][b] == BlockSum(x, z, w, a, b)
  {
    var n, d := |z|, |w|;
    var zh, wh := OneHot(z, k), OneHot(w, k);
    var zx := MatMul(Transpose(zh, k), x, d);
    var m := Mask(x, z, w, a, b);
    // S[a][b] = zx[a] . W[:, b] = sum over j labelled b of zx[a][j]
    DotComm(zx[a], Col(wh, b));
    DotOneHotCol(w, k, b, zx[a]);
    forall j | 0 <= j < d
      ensures (if w[j] == b then zx[a][j] else 0.0) == ColSums(m, d)[j]
    {
      ZtXEntry(x, z, k, d, a, j);
      MaskColumn(x, z, w, a, b, j);
    }
    assert seq(d, j requires 0 <= j < d => if w[j] == b then zx[a][j] else 0.0) == ColSums(m, d);
    RowColTotal(m, d);
  }

  /** `summarize_blocks` with one-hot partitions yields, for every block, the sum of X over that block. */
  lemma SummarizeBlocksIsBlockSum(x: Matrix, z: Labels, w: Labels, k: nat)
    requires IsMatrix(x, |z|, |w|)
    ensures forall a, b :: 0 <= a < k && 0 <= b < k ==>
      SummarizeBlocks(x, OneHot(z, k), OneHot(w, k), |z|, |w|, k, k)[a][b] == BlockSum(x, z, w, a, b)
  {
    forall a, b | 0 <= a < k && 0 <= b < k
      ensures SummarizeBlocks(x, OneHot(z, k), OneHot(w, k), |z|, |w|, k, k)[a][b] == BlockSum(x, z, w, a, b)
    {
      SummarizeBlockEntry(x, z, w, k, a, b);
    }
  }

  /** With valid labels the block sums partition the mass of X: they add up to the total of X. */
  lemma SummarizeBlocksTotal(x: Matrix, z: Labels, w: Labels, k: nat)
    requires IsMatrix(x, |z|, |w|) && ValidLabels(z, k) && ValidLabels(w, k)
    ensures Total(SummarizeBlocks(x, OneHot(z, k), OneHot(w, k), |z|, |w|, k, k)) == Total(x)
  {
    var n, d := |z|, |w|;
    var zh, wh := OneHot(z, k), OneHot(w, k);
    var zt := Transpose(zh, k);
    var zx := MatMul(zt, x, d);
    // Right factor: rows of W sum to one, so each row sum of Z^T X is kept.
    OneHotRowSums(w, k);
    MatMulKeepsRowSums(zx, wh, k);
    assert RowSums(MatMul(zx, wh, k)) == RowSums(zx);
    // Left factor: columns of Z^T are rows of Z, which sum to one.
    OneHotRowSums(z, k);
    forall i | 0 <= i < n
      ensures ColSums(zt, n)[i] == 1.0
    {
      assert Col(zt, i) == zh[i];
    }
    assert ColSums(zt, n) == Ones(n);
    MatMulKeepsColSums(zt, x, d);
    RowColTotal(zx, d);
    RowColTotal(x, d);
  }

  // ---------------------------------------------------------------------------
  // Block counts

  /** `get_block_counts` with one-hot partitions gives |{i : z[i] = a}| * |{j : w[j] = b}| for every block. */
  lemma BlockCountsAreSizes(z: Labels, w: Labels, k: nat)
    requires ValidLabels(z, k) && ValidLabels(w, k)
    ensures forall a, b :: 0 <= a < k && 0 <= b < k ==>
      GetBlockCounts(OneHot(z, k), OneHot(w, k), k, k)[a][b] == (CountLabel(z, a) * CountLabel(w, b)) as real
  {
    ClusterSizes(z, k);
    ClusterSizes(w, k);
  }

  /** With valid labels every cell lies in exactly one block, so the block counts add up to n * d. */
  lemma BlockCountsTotal(z: Labels, w: Labels, k: nat)
    requires ValidLabels(z, k) && ValidLabels(w, k)
    ensures Total(GetBlockCounts(OneHot(z, k), OneHot(w, k), k, k)) == (|z| * |w|) as real
  {
    var rows := ColSums(OneHot(z, k), k);
    BlockCountRowSums(z, w, k);
    CountsSumToLength(z, k);
    SumScale(|w| as real, rows);
    assert (|z| * |w|) as real == (|w| as real) * (|z| as real);
  }

  /** Row a of the block counts sums to (size of row cluster a) * d. */
  lemma BlockCountRowSums(z: Labels, w: Labels, k: nat)
    requires ValidLabels(z, k) && ValidLabels(w, k)
    ensures RowSums(GetBlockCounts(OneHot(z, k), OneHot(w, k), k, k)) == Scale(|w| as real, ColSums(OneHot(z, k), k))
  {
    var c := GetBlockCounts(OneHot(z, k), OneHot(w, k), k, k);
    var rows := ColSums(OneHot(z, k), k);
    var cols := ColSums(OneHot(w, k), k);
    CountsSumToLength(w, k);
    forall a | 0 <= a < k
      ensures RowSums(c)[a] == Scale(|w| as real, rows)[a]
    {
      assert c[a] == Scale(rows[a], cols);
      SumScale(rows[a], cols);
    }
  }

  /** A block that contains cell (i, j) is never empty. */
  lemma BlockOfCellNonEmpty(z: Labels, w: Labels, i: nat, j: nat)
    requires i < |z| && j < |w|
    ensures CountLabel(z, z[i]) * CountLabel(w, w[j]) >= 1
  {
    CountLabelPositive(z, i);
    CountLabelPositive(w, j);
    ProductOfPositives(CountLabel(z, z[i]), CountLabel(w, w[j]));
  }

  lemma ProductOfPositives(p: nat, q: nat)
    requires p >= 1 && q >= 1
    ensures p * q >= 1
  {
    assert p * q >= 1 * q;
  }

  // ---------------------------------------------------------------------------
  // Imputation

  /** One missing cell receives the mean of its own block. */
  lemma ImputeCellBlockMean(x: Matrix, z: Labels, w: Labels, k: nat, missing: seq<Coord>, t: nat)
    requires IsMatrix(x, |z|, |w|) && ValidLabels(z, k) && ValidLabels(w, k)
    requires CoordsIn(missing, |z|, |w|) && t < |missing|
    ensures BlockSize(z, w, missing[t]) >= 1.0
    ensures ImputeBlockRepresentative(x, OneHot(z, k), OneHot(w, k), z, w, |z|, |w|, k, missing)
              [missing[t].row][missing[t].col] * BlockSize(z, w, missing[t])
         == BlockSum(x, z, w, z[missing[t].row], w[missing[t].col])
  {
    var n, d := |z|, |w|;
    var zh, wh := OneHot(z, k), OneHot(w, k);
    var s := SummarizeBlocks(x, zh, wh, n, d, k, k);
    var c := GetBlockCounts(zh, wh, k, k);
    var r := ImputeBlockRepresentative(x, zh, wh, z, w, n, d, k, missing);
    var i, j := missing[t].row, missing[t].col;
    var size := BlockSize(z, w, missing[t]);
    BlockOfCellNonEmpty(z, w, i, j);
    BlockCountsAreSizes(z, w, k);
    SummarizeBlockEntry(x, z, w, k, z[i], w[j]);
    assert c[z[i]][w[j]] == size;
    assert r[i][j] == s[z[i]][w[j]] / size;
  }

  /** Number of cells in the block that contains `cell`. */
  function BlockSize(z: Labels, w: Labels, cell: Coord): real
    requires cell.row < |z| && cell.col < |w|
  {
    (CountLabel(z, z[cell.row]) * CountLabel(w, w[cell.col])) as real
  }

  /** With one-hot partitions, every missing cell receives the mean of its own block: its block
      is never empty, so the count-0 guard never applies to it, and the cell times the block
      size equals the block sum. */
  lemma ImputeWritesBlockMean(x: Matrix, z: Labels, w: Labels, k: nat, missing: seq<Coord>)
    requires IsMatrix(x, |z|, |w|) && ValidLabels(z, k) && ValidLabels(w, k)
    requires CoordsIn(missing, |z|, |w|)
    ensures forall t :: 0 <= t < |missing| ==>
      && BlockSize(z, w, missing[t]) >= 1.0
      && ImputeBlockRepresentative(x, OneHot(z, k), OneHot(w, k), z, w, |z|, |w|, k, missing)
           [missing[t].row][missing[t].col] * BlockSize(z, w, missing[t])
         == BlockSum(x, z, w, z[missing[t].row], w[missing[t].col])
  {
    forall t | 0 <= t < |missing|
      ensures BlockSize(z, w, missing[t]) >= 1.0
      ensures ImputeBlockRepresentative(x, OneHot(z, k), OneHot(w, k), z, w, |z|, |w|, k, missing)
           [missing[t].row][missing[t].col] * BlockSize(z, w, missing[t])
         == BlockSum(x, z, w, z[missing[t].row], w[missing[t].col])
    {
      ImputeCellBlockMean(x, z, w, k, missing, t);
    }
  }

  /** The imputer keeps a non-negative matrix non-negative and keeps it from losing its last
      positive entry: a block mean of non-negative values is non-negative, and positive when
      the block holds a positive value. */
  lemma ImputeKeepsPositive(x: Matrix, z: Labels, w: Labels, k: nat, missing: seq<Coord>)
    requires IsMatrix(x, |z|, |w|) && ValidLabels(z, k) && ValidLabels(w, k)
    requires CoordsIn(missing, |z|, |w|) && NonNegative(x)
    ensures NonNegative(ImputeBlockRepresentative(x, OneHot(z, k), OneHot(w, k), z, w, |z|, |w|, k, missing))
    ensures HasPositive(x) ==>
      HasPositive(ImputeBlockRepresentative(x, OneHot(z, k), OneHot(w, k), z, w, |z|, |w|, k, missing))
  {
    var n, d := |z|, |w|;
    var r := ImputeBlockRepresentative(x, OneHot(z, k), OneHot(w, k), z, w, n, d, k, missing);
    forall i, j | 0 <= i < n && 0 <= j < d
      ensures r[i][j] >= 0.0
      ensures x[i][j] > 0.0 ==> r[i][j] > 0.0
    {
      if Coord(i, j) in missing {
        var t :| 0 <= t < |missing| && missing[t] == Coord(i, j);
        ImputedCellSign(x, z, w, k, missing, t);
      }
    }
    if HasPositive(x) {
      var i, j :| 0 <= i < n && 0 <= j < d && x[i][j] > 0.0;
      assert r[i][j] > 0.0;
    }
  }

  /** An imputed cell is a block mean of non-negative values, so it is non-negative, and
      positive when the cell's own previous value was. */
  lemma ImputedCellSign(x: Matrix, z: Labels, w: Labels, k: nat, missing: seq<Coord>, t: nat)
    requires IsMatrix(x, |z|, |w|) && ValidLabels(z, k) && ValidLabels(w, k)
    requires CoordsIn(missing, |z|, |w|) && NonNegative(x) && t < |missing|
    ensures
      var r := ImputeBlockRepresentative(x, OneHot(z, k), OneHot(w, k), z, w, |z|, |w|, k, missing);
      var i, j := missing[t].row, missing[t].col;
      r[i][j] >= 0.0 && (x[i][j] > 0.0 ==> r[i][j] > 0.0)
  {
    var r := ImputeBlockRepresentative(x, OneHot(z, k), OneHot(w, k), z, w, |z|, |w|, k, missing);
    var i, j := missing[t].row, missing[t].col;
    ImputeCellBlockMean(x, z, w, k, missing, t);
    var mask := Mask(x, z, w, z[i], w[j]);
    assert NonNegative(mask);
    TotalAtLeastEntry(mask, i, j);
    QuotientSign(r[i][j], BlockSize(z, w, missing[t]), BlockSum(x, z, w, z[i], w[j]));
  }

  /** v * s == p with s >= 1 gives v the sign of p. */
  lemma QuotientSign(v: real, s: real, p: real)
    requires s >= 1.0 && v * s == p && p >= 0.0
    ensures v >= 0.0 && (p > 0.0 ==> v > 0.0)
  {
  }
}
