/** The alternating loop climbs: when no cell is missing, X and hence B stay fixed across the
    passes of `_fit_single`, and each pass's score trace(Z^T BW) is at least the previous
    one's, so the recorded modularities never decrease. The argument is the exchange of the
    order of summation behind the alternating maximisation of trace(Z^T B W). */
module Ascent {
  import opened Results
  import opened Matrices
  import opened Partitions
  import opened Blocks
  import opened Modularity
  import opened SingleRun

  /** The entry of every row of `m` at that row's label. */
  function AtLabels(m: Matrix, labels: Labels): Vector
    requires |labels| == |m| && forall i :: 0 <= i < |m| ==> labels[i] < |m[i]|
  {
    seq(|m|, i requires 0 <= i < |m| => m[i][labels[i]])
  }

  /** Entry-wise smaller vectors have smaller sums. */
  lemma {:induction false} SumMonotone(u: Vector, v: Vector)
    requires |u| == |v|
    requires forall t :: 0 <= t < |u| ==> u[t] <= v[t]
    ensures Sum(u) <= Sum(v)
  {
    if |u| > 0 {
      var m := |u| - 1;
      assert forall t :: 0 <= t < m ==> u[..m][t] == u[t] && v[..m][t] == v[t];
      SumMonotone(u[..m], v[..m]);
    }
  }

  lemma DivMonotone(a: real, b: real, m: real)
    requires a <= b && m > 0.0
    ensures a / m <= b / m
  {
  }

  /** B restricted to the cells (i, j) whose row label equals their column label. */
  function Agreement(bm: Matrix, z: Labels, w: Labels): Matrix
    requires IsMatrix(bm, |z|, |w|)
  {
    seq(|z|, i requires 0 <= i < |z| =>
      seq(|w|, j requires 0 <= j < |w| => if w[j] == z[i] then bm[i][j] else 0.0))
  }

  /** Row i of B W, read at z[i], sums row i of the agreement cells. */
  lemma RowPicks(bm: Matrix, z: Labels, w: Labels, k: nat)
    requires k > 0 && IsMatrix(bm, |z|, |w|) && ValidLabels(z, k) && ValidLabels(w, k)
    ensures AtLabels(MatMul(bm, OneHot(w, k), k), z) == RowSums(Agreement(bm, z, w))
  {
    var g := Agreement(bm, z, w);
    var bw := MatMul(bm, OneHot(w, k), k);
    forall i | 0 <= i < |z|
      ensures bw[i][z[i]] == Sum(g[i])
    {
      DotComm(bm[i], Col(OneHot(w, k), z[i]));
      DotOneHotCol(w, k, z[i], bm[i]);
      assert g[i] == seq(|w|, j requires 0 <= j < |w| => if w[j] == z[i] then bm[i][j] else 0.0);
    }
  }

  /** Row j of B^T Z, read at w[j], sums column j of the agreement cells. */
  lemma ColumnPicks(bm: Matrix, z: Labels, w: Labels, k: nat)
    requires k > 0 && IsMatrix(bm, |z|, |w|) && ValidLabels(z, k) && ValidLabels(w, k)
    ensures AtLabels(MatMul(Transpose(bm, |w|), OneHot(z, k), k), w) == ColSums(Agreement(bm, z, w), |w|)
  {
    var g := Agreement(bm, z, w);
    var btz := MatMul(Transpose(bm, |w|), OneHot(z, k), k);
    forall j | 0 <= j < |w|
      ensures btz[j][w[j]] == Sum(Col(g, j))
    {
      assert Transpose(bm, |w|)[j] == Col(bm, j);
      DotComm(Col(bm, j), Col(OneHot(z, k), w[j]));
      DotOneHotCol(z, k, w[j], Col(bm, j));
      assert Col(g, j) == seq(|z|, i requires 0 <= i < |z| => if z[i] == w[j] then Col(bm, j)[i] else 0.0);
    }
  }

  /** Picking the entry of B W at z[i] in every row adds up the same cells of B as picking the
      entry of B^T Z at w[j] in every column: the cells (i, j) with z[i] == w[j]. */
  lemma Exchange(bm: Matrix, z: Labels, w: Labels, k: nat)
    requires k > 0 && IsMatrix(bm, |z|, |w|) && ValidLabels(z, k) && ValidLabels(w, k)
    ensures Sum(AtLabels(MatMul(bm, OneHot(w, k), k), z))
         == Sum(AtLabels(MatMul(Transpose(bm, |w|), OneHot(z, k), k), w))
  {
    RowPicks(bm, z, w, k);
    ColumnPicks(bm, z, w, k);
    RowColTotal(Agreement(bm, z, w), |w|);
  }

  /** One round of alternating maximisation on a fixed B never lowers the score: Z scored
      against W0, then W1 the column argmax of B^T Z, then Z2 the row argmax of B W1. */
  lemma AlternatingAscent(bm: Matrix, w0: Labels, z: Labels, w1: Labels, z2: Labels, k: nat)
    requires k > 0 && IsMatrix(bm, |z|, |w0|) && |w1| == |w0| && |z2| == |z|
    requires ValidLabels(w0, k) && ValidLabels(z, k) && ValidLabels(w1, k) && ValidLabels(z2, k)
    requires forall j :: 0 <= j < |w1| ==> FirstMaxAt(MatMul(Transpose(bm, |w0|), OneHot(z, k), k)[j], w1[j])
    requires forall i :: 0 <= i < |z2| ==> FirstMaxAt(MatMul(bm, OneHot(w1, k), k)[i], z2[i])
    ensures Sum(AtLabels(MatMul(bm, OneHot(w0, k), k), z)) <= Sum(AtLabels(MatMul(bm, OneHot(w1, k), k), z2))
  {
    var btz := MatMul(Transpose(bm, |w0|), OneHot(z, k), k);
    var bw1 := MatMul(bm, OneHot(w1, k), k);
    Exchange(bm, z, w0, k);
    SumMonotone(AtLabels(btz, w0), AtLabels(btz, w1));
    Exchange(bm, z, w1, k);
    SumMonotone(AtLabels(bw1, z), AtLabels(bw1, z2));
  }

  /** Without missing cells a pass leaves X, and so B and N, as they were; its scores are B W
      and B^T Z on that same B, and its score picks BW at the row labels. */
  lemma PassKeepsMatrix(x: Matrix, b: Matrix, w: Labels, n: nat, d: nat, k: nat, missing: seq<Coord>, s: StepOutcome)
    requires k > 0 && IsMatrix(x, n, d) && IsMatrix(b, n, d)
    requires |w| == d && ValidLabels(w, k) && CoordsIn(missing, n, d)
    requires |missing| == 0 && ComputeModularityMatrix(x, n, d) == Success(Built(b, Total(x)))
    requires StepFacts(x, b, w, n, d, k, missing, s)
    ensures s.x == x && s.b == b && s.mass == Total(x) && s.modularity == s.mEnd / Total(x)
    ensures |s.z| == n && ValidLabels(s.z, k) && |s.w| == d && ValidLabels(s.w, k)
    ensures s.bw == MatMul(b, OneHot(w, k), k)
    ensures s.btz == MatMul(Transpose(b, d), OneHot(s.z, k), k)
    ensures s.mEnd == Sum(AtLabels(s.bw, s.z))
  {
    StepFactsMeaning(x, b, w, n, d, k, missing, s);
    TraceOfOneHotProduct(s.bw, s.z, k);
    assert AtLabels(s.bw, s.z) == seq(|s.z|, i requires 0 <= i < |s.z| => s.bw[i][s.z[i]]);
  }

  /** Without missing cells every pass of a run keeps the run's X and B. */
  lemma {:induction false} PassesKeepMatrix(x: Matrix, b: Matrix, w: Labels, n: nat, d: nat, k: nat,
                                            missing: seq<Coord>, passes: seq<StepOutcome>, q: nat)
    requires k > 0 && IsMatrix(x, n, d) && IsMatrix(b, n, d)
    requires |w| == d && ValidLabels(w, k) && CoordsIn(missing, n, d)
    requires |missing| == 0 && ComputeModularityMatrix(x, n, d) == Success(Built(b, Total(x)))
    requires PassesChained(x, b, w, n, d, k, missing, passes)
    requires q < |passes|
    ensures passes[q].x == x && passes[q].b == b
    ensures passes[q].modularity == passes[q].mEnd / Total(x)
    decreases q
  {
    if q == 0 {
      PassKeepsMatrix(x, b, w, n, d, k, missing, passes[0]);
    } else {
      PassesKeepMatrix(x, b, w, n, d, k, missing, passes, q - 1);
      var p := passes[q - 1];
      assert StepFacts(p.x, p.b, p.w, n, d, k, missing, passes[q]);
      PassKeepsMatrix(x, b, p.w, n, d, k, missing, passes[q]);
    }
  }

  /** Without missing cells the score of every pass is at least the previous pass's. */
  lemma ScoresNonDecreasing(x: Matrix, b: Matrix, w: Labels, n: nat, d: nat, k: nat,
                            missing: seq<Coord>, passes: seq<StepOutcome>)
    requires k > 0 && IsMatrix(x, n, d) && IsMatrix(b, n, d)
    requires |w| == d && ValidLabels(w, k) && CoordsIn(missing, n, d)
    requires |missing| == 0 && ComputeModularityMatrix(x, n, d) == Success(Built(b, Total(x)))
    requires PassesChained(x, b, w, n, d, k, missing, passes)
    ensures forall q :: 0 <= q < |passes| - 1 ==> passes[q].mEnd <= passes[q + 1].mEnd
  {
    forall q | 0 <= q < |passes| - 1
      ensures passes[q].mEnd <= passes[q + 1].mEnd
    {
      var s, t := passes[q], passes[q + 1];
      var wq := if q == 0 then w else passes[q - 1].w;
      assert |wq| == d && ValidLabels(wq, k) && StepFacts(x, b, wq, n, d, k, missing, s) by {
        if q > 0 {
          PassesKeepMatrix(x, b, w, n, d, k, missing, passes, q - 1);
          var p := passes[q - 1];
          assert StepFacts(p.x, p.b, p.w, n, d, k, missing, s);
        }
      }
      PassesKeepMatrix(x, b, w, n, d, k, missing, passes, q);
      PassKeepsMatrix(x, b, wq, n, d, k, missing, s);
      assert StepFacts(s.x, s.b, s.w, n, d, k, missing, t);
      PassKeepsMatrix(x, b, s.w, n, d, k, missing, t);
      AlternatingAscent(b, wq, s.z, s.w, t.z, k);
    }
  }

  /** A run without missing cells, started on the modularity matrix of its X, climbs: every
      pass scores at least the previous one, and with a positive mass N every modularity it
      records is at most the next one and the last is at most the reported modularity. */
  lemma RunClimbs(x: Matrix, b: Matrix, w: Labels, n: nat, d: nat, k: nat, missing: seq<Coord>,
                  maxIter: int, tol: real, mBegin: Option<real>, trace: seq<real>, iteration: nat, res: RunResult)
    requires k > 0 && IsMatrix(x, n, d) && IsMatrix(b, n, d)
    requires |w| == d && ValidLabels(w, k) && CoordsIn(missing, n, d)
    requires |missing| == 0 && ComputeModularityMatrix(x, n, d) == Success(Built(b, Total(x)))
    requires RunFacts(x, b, w, n, d, k, missing, maxIter, tol, mBegin, trace, iteration, res)
    ensures forall q :: 0 <= q < |res.passes| - 1 ==> res.passes[q].mEnd <= res.passes[q + 1].mEnd
    ensures Total(x) > 0.0 ==>
      && (forall q :: |trace| <= q < |res.modularities| - 1 ==> res.modularities[q] <= res.modularities[q + 1])
      && (|res.modularities| > |trace| ==> res.modularities[|res.modularities| - 1] <= res.modularity)
  {
    var ps := res.passes;
    var mods := res.modularities;
    ScoresNonDecreasing(x, b, w, n, d, k, missing, ps);
    if Total(x) > 0.0 {
      forall q | 0 <= q < |ps| - 1
        ensures ps[q].modularity <= ps[q + 1].modularity
      {
        PassesKeepMatrix(x, b, w, n, d, k, missing, ps, q);
        PassesKeepMatrix(x, b, w, n, d, k, missing, ps, q + 1);
        DivMonotone(ps[q].mEnd, ps[q + 1].mEnd, Total(x));
      }
      forall q | |trace| <= q < |mods|
        ensures mods[q] == ps[q - |trace|].modularity
      {
        assert mods[|trace| + (q - |trace|)] == ps[q - |trace|].modularity;
      }
    }
  }

  /** `_fit_single` without missing cells climbs: every pass scores at least the previous one. */
  lemma ScoresClimbWithoutMissing(x: Matrix, n: nat, d: nat, k: nat, missing: seq<Coord>, init: Labels,
                                  maxIter: int, tol: real)
    requires k > 0 && IsMatrix(x, n, d)
    requires |init| == d && ValidLabels(init, k) && CoordsIn(missing, n, d)
    ensures
      var r := FitSingle(x, n, d, k, missing, init, maxIter, tol);
      r.Success? && |missing| == 0 ==>
        forall q :: 0 <= q < |r.value.passes| - 1 ==> r.value.passes[q].mEnd <= r.value.passes[q + 1].mEnd
  {
    var r := FitSingle(x, n, d, k, missing, init, maxIter, tol);
    if r.Success? && |missing| == 0 {
      FitSingleFacts(x, n, d, k, missing, init, maxIter, tol);
      var b0 := ComputeModularityMatrix(x, n, d).value.b;
      RunClimbs(x, b0, init, n, d, k, missing, maxIter, tol, None, [], 0, r.value);
    }
  }

  /** `_fit_single` without missing cells and with a positive mass N records a trace of
      modularities that never decreases and ends at most at the reported modularity. */
  lemma TraceNonDecreasingWithoutMissing(x: Matrix, n: nat, d: nat, k: nat, missing: seq<Coord>, init: Labels,
                                         maxIter: int, tol: real)
    requires k > 0 && IsMatrix(x, n, d)
    requires |init| == d && ValidLabels(init, k) && CoordsIn(missing, n, d)
    ensures
      var r := FitSingle(x, n, d, k, missing, init, maxIter, tol);
      r.Success? && |missing| == 0 && Total(x) > 0.0 ==>
        var mods := r.value.modularities;
        && (forall q :: 0 <= q < |mods| - 1 ==> mods[q] <= mods[q + 1])
        && (|mods| > 0 ==> mods[|mods| - 1] <= r.value.modularity)
  {
    var r := FitSingle(x, n, d, k, missing, init, maxIter, tol);
    if r.Success? && |missing| == 0 && Total(x) > 0.0 {
      FitSingleFacts(x, n, d, k, missing, init, maxIter, tol);
      var b0 := ComputeModularityMatrix(x, n, d).value.b;
      RunClimbs(x, b0, init, n, d, k, missing, maxIter, tol, None, [], 0, r.value);
    }
  }
}
