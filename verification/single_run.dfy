/** One run of co-clustering by direct maximisation of graph modularity (`_fit_single`):
    alternate row and column reassignment, re-imputing the missing cells after each,
    until the modularity stops changing by more than `tol` or `maxIter` is reached. */
module SingleRun {
  import opened Results
  import opened Matrices
  import opened Partitions
  import opened Blocks
  import opened Modularity

  /** The values one pass of the loop body computes. */
  datatype StepOutcome = StepOutcome(
    z: Labels,        // new row labels
    bw: Matrix,       // B W, with B and W as they were at the start of the pass
    x1: Matrix,       // X after the imputation that follows the row step
    b1: Matrix,       // modularity matrix of x1
    btz: Matrix,      // B1^T Z
    w: Labels,        // new column labels
    x: Matrix,        // X after the imputation that follows the column step
    b: Matrix,        // modularity matrix of x
    mass: real,       // its mass N
    mEnd: real,       // trace(Z^T BW)
    modularity: real) // mEnd / mass

  /** What `_fit_single` returns (labels, final modularity, the trace of modularities, the number
      of iterations and the imputed matrix), together with the record of the loop's passes. */
  datatype RunResult = RunResult(
    rowLabels: Labels,
    columnLabels: Labels,
    modularity: real,
    modularities: seq<real>,
    iterations: nat,
    x: Matrix,
    passes: seq<StepOutcome>)

  /** One half of a pass: the score matrix, the labels taken from it, and X re-imputed. */
  datatype Half = Half(scores: Matrix, labels: Labels, x: Matrix)

  /** The cells of `y` outside `missing` are those of `x`. */
  predicate SameObserved(x: Matrix, y: Matrix, n: nat, d: nat, missing: seq<Coord>)
    requires IsMatrix(x, n, d) && IsMatrix(y, n, d)
  {
    forall i, j :: 0 <= i < n && 0 <= j < d && Coord(i, j) !in missing ==> y[i][j] == x[i][j]
  }

  lemma SameObservedTrans(x: Matrix, y: Matrix, u: Matrix, n: nat, d: nat, missing: seq<Coord>)
    requires IsMatrix(x, n, d) && IsMatrix(y, n, d) && IsMatrix(u, n, d)
    requires SameObserved(x, y, n, d, missing) && SameObserved(y, u, n, d, missing)
    ensures SameObserved(x, u, n, d, missing)
  {
  }

  function Abs(v: real): real {
    if v < 0.0 then -v else v
  }

  /** Reassign rows: every row takes the first maximising column of B W as its label, then the
      missing cells are re-imputed with the new row and the old column partition. */
  function RowHalf(x: Matrix, b: Matrix, w: Labels, n: nat, d: nat, k: nat, missing: seq<Coord>): (h: Half)
    requires k > 0 && IsMatrix(x, n, d) && IsMatrix(b, n, d)
    requires |w| == d && ValidLabels(w, k) && CoordsIn(missing, n, d)
    ensures IsMatrix(h.scores, n, k) && |h.labels| == n && ValidLabels(h.labels, k) && IsMatrix(h.x, n, d)
  {
    var bw := MatMul(b, OneHot(w, k), k);
    var z := RowArgmax(bw, k);
    Half(bw, z, ImputeBlockRepresentative(x, OneHot(z, k), OneHot(w, k), z, w, n, d, k, missing))
  }

  /** The row half takes its scores from B W and its labels as their first argmaxes, imputes
      with the new row labels and the old columns, and keeps non-negative data non-negative
      with some positive entry. */
  lemma RowHalfSpec(x: Matrix, b: Matrix, w: Labels, n: nat, d: nat, k: nat, missing: seq<Coord>)
    requires k > 0 && IsMatrix(x, n, d) && IsMatrix(b, n, d)
    requires |w| == d && ValidLabels(w, k) && CoordsIn(missing, n, d)
    ensures
      var h := RowHalf(x, b, w, n, d, k, missing);
      && h.scores == MatMul(b, OneHot(w, k), k)
      && (forall i :: 0 <= i < n ==> FirstMaxAt(h.scores[i], h.labels[i]))
      && h.x == ImputeBlockRepresentative(x, OneHot(h.labels, k), OneHot(w, k), h.labels, w, n, d, k, missing)
      && SameObserved(x, h.x, n, d, missing)
      && (NonNegative(x) ==> NonNegative(h.x) && (HasPositive(x) ==> HasPositive(h.x)))
  {
    var h := RowHalf(x, b, w, n, d, k, missing);
    if NonNegative(x) {
      ImputeKeepsPositive(x, h.labels, w, k, missing);
    }
  }

  /** Reassign columns: every column takes the first maximising column of B1^T Z as its label,
      then the missing cells are re-imputed with the row labels `z` and the new columns. */
  function ColumnHalf(x: Matrix, b: Matrix, z: Labels, n: nat, d: nat, k: nat, missing: seq<Coord>): (h: Half)
    requires k > 0 && IsMatrix(x, n, d) && IsMatrix(b, n, d)
    requires |z| == n && ValidLabels(z, k) && CoordsIn(missing, n, d)
    ensures IsMatrix(h.scores, d, k) && |h.labels| == d && ValidLabels(h.labels, k) && IsMatrix(h.x, n, d)
  {
    var btz := MatMul(Transpose(b, d), OneHot(z, k), k);
    var w := RowArgmax(btz, k);
    Half(btz, w, ImputeBlockRepresentative(x, OneHot(z, k), OneHot(w, k), z, w, n, d, k, missing))
  }

  /** The column half takes its scores from B^T Z and its labels as their first argmaxes,
      imputes with the given row labels and the new columns, and keeps non-negative data
      non-negative with some positive entry. */
  lemma ColumnHalfSpec(x: Matrix, b: Matrix, z: Labels, n: nat, d: nat, k: nat, missing: seq<Coord>)
    requires k > 0 && IsMatrix(x, n, d) && IsMatrix(b, n, d)
    requires |z| == n && ValidLabels(z, k) && CoordsIn(missing, n, d)
    ensures
      var h := ColumnHalf(x, b, z, n, d, k, missing);
      && h.scores == MatMul(Transpose(b, d), OneHot(z, k), k)
      && (forall j :: 0 <= j < d ==> FirstMaxAt(h.scores[j], h.labels[j]))
      && h.x == ImputeBlockRepresentative(x, OneHot(z, k), OneHot(h.labels, k), z, h.labels, n, d, k, missing)
      && SameObserved(x, h.x, n, d, missing)
      && (NonNegative(x) ==> NonNegative(h.x) && (HasPositive(x) ==> HasPositive(h.x)))
  {
    var h := ColumnHalf(x, b, z, n, d, k, missing);
    if NonNegative(x) {
      ImputeKeepsPositive(x, z, h.labels, k, missing);
    }
  }

  /** What one pass of the loop computes from X, B and W, stated through the contracts of the
      two halves: the row half on X, B, W gives BW, Z and X1; B1 is the modularity matrix of X1;
      the column half on X1, B1, Z gives B1^T Z, the new W and X; every label is the first
      argmax of its score row; B is the modularity matrix of X with non-zero mass N; the score
      is trace(Z^T BW), and the pass's modularity is that score over N. */
  predicate StepFacts(x: Matrix, b: Matrix, w: Labels, n: nat, d: nat, k: nat, missing: seq<Coord>, s: StepOutcome)
    requires k > 0 && IsMatrix(x, n, d) && IsMatrix(b, n, d)
    requires |w| == d && ValidLabels(w, k) && CoordsIn(missing, n, d)
  {
    && RowHalf(x, b, w, n, d, k, missing) == Half(s.bw, s.z, s.x1)
    && ComputeModularityMatrix(s.x1, n, d) == Success(Built(s.b1, Total(s.x1)))
    && ColumnHalf(s.x1, s.b1, s.z, n, d, k, missing) == Half(s.btz, s.w, s.x)
    && ComputeModularityMatrix(s.x, n, d) == Success(Built(s.b, s.mass))
    && (forall i :: 0 <= i < n ==> FirstMaxAt(s.bw[i], s.z[i]))
    && (forall j :: 0 <= j < d ==> FirstMaxAt(s.btz[j], s.w[j]))
    && s.mEnd == Trace(MatMul(Transpose(OneHot(s.z, k), k), s.bw, k))
    && s.mass != 0.0 && s.modularity == s.mEnd / s.mass
  }

  /** StepFacts spelled out: the labels are first argmaxes of the score matrices, both imputed
      matrices are block-representative imputations, B1 is rebuilt from X1, only missing
      cells change, and the score trace(Z^T BW) is the sum of the row maxima of BW. */
  lemma StepFactsMeaning(x: Matrix, b: Matrix, w: Labels, n: nat, d: nat, k: nat, missing: seq<Coord>, s: StepOutcome)
    requires k > 0 && IsMatrix(x, n, d) && IsMatrix(b, n, d)
    requires |w| == d && ValidLabels(w, k) && CoordsIn(missing, n, d)
    requires StepFacts(x, b, w, n, d, k, missing, s)
    ensures |s.z| == n && ValidLabels(s.z, k) && |s.w| == d && ValidLabels(s.w, k)
    ensures s.bw == MatMul(b, OneHot(w, k), k)
    ensures forall i :: 0 <= i < n ==> FirstMaxAt(s.bw[i], s.z[i])
    ensures s.x1 == ImputeBlockRepresentative(x, OneHot(s.z, k), OneHot(w, k), s.z, w, n, d, k, missing)
    ensures IsMatrix(s.x1, n, d) && IsMatrix(s.b1, n, d)
    ensures s.btz == MatMul(Transpose(s.b1, d), OneHot(s.z, k), k)
    ensures forall j :: 0 <= j < d ==> FirstMaxAt(s.btz[j], s.w[j])
    ensures s.x == ImputeBlockRepresentative(s.x1, OneHot(s.z, k), OneHot(s.w, k), s.z, s.w, n, d, k, missing)
    ensures IsMatrix(s.x, n, d) && IsMatrix(s.b, n, d) && s.mass == Total(s.x)
    ensures SameObserved(x, s.x, n, d, missing)
    ensures s.mEnd == Sum(RowMaxima(s.bw, k))
  {
    NumeratorIsSumOfRowMaxima(s.bw, s.z, k);
    RowHalfSpec(x, b, w, n, d, k, missing);
    ColumnHalfSpec(s.x1, s.b1, s.z, n, d, k, missing);
    SameObservedTrans(x, s.x1, s.x, n, d, missing);
  }

  /** The body of the `while change` loop: row step, imputation, rebuild, column step,
      imputation, rebuild, score. */
  function Step(x: Matrix, b: Matrix, w: Labels, n: nat, d: nat, k: nat, missing: seq<Coord>): (r: Result<StepOutcome>)
    requires k > 0 && IsMatrix(x, n, d) && IsMatrix(b, n, d)
    requires |w| == d && ValidLabels(w, k) && CoordsIn(missing, n, d)
    ensures r.Failure? ==> r.error == NumericalDegeneracy
    ensures r.Success? ==>
      IsMatrix(r.value.x, n, d) && IsMatrix(r.value.b, n, d) && |r.value.w| == d && ValidLabels(r.value.w, k)
  {
    var row := RowHalf(x, b, w, n, d, k, missing);
    match ComputeModularityMatrix(row.x, n, d)
    case Failure(e) => Failure(e)
    case Success(m1) =>
      var col := ColumnHalf(row.x, m1.b, row.labels, n, d, k, missing);
      match ComputeModularityMatrix(col.x, n, d)
      case Failure(e) => Failure(e)
      case Success(m2) => Success(Pass(row, m1, col, m2, k))
  }

  /** A pass fails exactly when one of the two rebuilt matrices has zero mass, and a successful
      pass satisfies StepFacts. */
  lemma StepSpec(x: Matrix, b: Matrix, w: Labels, n: nat, d: nat, k: nat, missing: seq<Coord>)
    requires k > 0 && IsMatrix(x, n, d) && IsMatrix(b, n, d)
    requires |w| == d && ValidLabels(w, k) && CoordsIn(missing, n, d)
    ensures
      var r := Step(x, b, w, n, d, k, missing);
      var row := RowHalf(x, b, w, n, d, k, missing);
      r.Failure? <==>
        (|| Total(row.x) == 0.0
         || Total(ColumnHalf(row.x, ComputeModularityMatrix(row.x, n, d).value.b, row.labels, n, d, k, missing).x) == 0.0)
    ensures
      var r := Step(x, b, w, n, d, k, missing);
      r.Success? ==> StepFacts(x, b, w, n, d, k, missing, r.value)
  {
    var row := RowHalf(x, b, w, n, d, k, missing);
    var c1 := ComputeModularityMatrix(row.x, n, d);
    if c1.Success? {
      var col := ColumnHalf(row.x, c1.value.b, row.labels, n, d, k, missing);
      var c2 := ComputeModularityMatrix(col.x, n, d);
      if c2.Success? {
        PassFacts(x, b, w, n, d, k, missing, row, c1.value, col, c2.value);
      }
    }
  }

  /** On non-negative data with a positive entry a pass never meets a zero mass, and leaves the
      matrix non-negative with a positive entry. */
  lemma StepSucceeds(x: Matrix, b: Matrix, w: Labels, n: nat, d: nat, k: nat, missing: seq<Coord>)
    requires k > 0 && IsMatrix(x, n, d) && IsMatrix(b, n, d)
    requires |w| == d && ValidLabels(w, k) && CoordsIn(missing, n, d)
    ensures
      var r := Step(x, b, w, n, d, k, missing);
      NonNegative(x) && HasPositive(x) ==> r.Success? && NonNegative(r.value.x) && HasPositive(r.value.x)
  {
    if NonNegative(x) && HasPositive(x) {
      var row := RowHalf(x, b, w, n, d, k, missing);
      assert NonNegative(row.x) && HasPositive(row.x) && Total(row.x) > 0.0 by {
        RowHalfSpec(x, b, w, n, d, k, missing);
        PositiveTotal(row.x);
      }
      var m1 := ComputeModularityMatrix(row.x, n, d).value;
      var col := ColumnHalf(row.x, m1.b, row.labels, n, d, k, missing);
      assert NonNegative(col.x) && HasPositive(col.x) && Total(col.x) > 0.0 by {
        ColumnHalfSpec(row.x, m1.b, row.labels, n, d, k, missing);
        PositiveTotal(col.x);
      }
    }
  }

  /** The outcome of a pass assembled from its two halves and the two rebuilt matrices. */
  function Pass(row: Half, m1: Built, col: Half, m2: Built, k: nat): StepOutcome
    requires IsMatrix(row.scores, |row.labels|, k) && m2.mass != 0.0
  {
    var mEnd := Trace(MatMul(Transpose(OneHot(row.labels, k), k), row.scores, k));
    StepOutcome(row.labels, row.scores, row.x, m1.b, col.scores, col.labels, col.x, m2.b,
                m2.mass, mEnd, mEnd / m2.mass)
  }

  lemma PassFacts(x: Matrix, b: Matrix, w: Labels, n: nat, d: nat, k: nat, missing: seq<Coord>,
                  row: Half, m1: Built, col: Half, m2: Built)
    requires k > 0 && IsMatrix(x, n, d) && IsMatrix(b, n, d)
    requires |w| == d && ValidLabels(w, k) && CoordsIn(missing, n, d)
    requires row == RowHalf(x, b, w, n, d, k, missing)
    requires ComputeModularityMatrix(row.x, n, d) == Success(m1)
    requires col == ColumnHalf(row.x, m1.b, row.labels, n, d, k, missing)
    requires ComputeModularityMatrix(col.x, n, d) == Success(m2)
    ensures IsMatrix(row.scores, |row.labels|, k) && m2.mass != 0.0
    ensures StepFacts(x, b, w, n, d, k, missing, Pass(row, m1, col, m2, k))
  {
    RowHalfSpec(x, b, w, n, d, k, missing);
    ColumnHalfSpec(row.x, m1.b, row.labels, n, d, k, missing);
  }

  /** The score a pass compares against: the initial `mBegin` for the first pass, the previous
      pass's score for every later one. */
  function PrevScore(mBegin: Option<real>, passes: seq<StepOutcome>, q: nat): Option<real>
    requires q < |passes|
  {
    if q == 0 then mBegin else Some(passes[q - 1].mEnd)
  }

  /** The loop continues after a pass when its score moved by more than `tol` (anything moves
      away from the initial -inf, written None) and the incremented count is below the cap. */
  predicate Continues(prev: Option<real>, mEnd: real, tol: real, count: int, maxIter: int) {
    (prev.None? || Abs(mEnd - prev.value) > tol) && count < maxIter
  }

  /** Each pass ran on the X, B and W its predecessor left (the first on the loop's inputs). */
  predicate PassesChained(x: Matrix, b: Matrix, w: Labels, n: nat, d: nat, k: nat, missing: seq<Coord>,
                          passes: seq<StepOutcome>)
    requires k > 0 && IsMatrix(x, n, d) && IsMatrix(b, n, d)
    requires |w| == d && ValidLabels(w, k) && CoordsIn(missing, n, d)
  {
    && |passes| > 0
    && (forall q :: 0 <= q < |passes| ==>
          IsMatrix(passes[q].x, n, d) && IsMatrix(passes[q].b, n, d) && |passes[q].w| == d && ValidLabels(passes[q].w, k))
    && StepFacts(x, b, w, n, d, k, missing, passes[0])
    && (forall q :: 0 <= q < |passes| - 1 ==>
          StepFacts(passes[q].x, passes[q].b, passes[q].w, n, d, k, missing, passes[q + 1]))
  }

  /** The loop's verdict after every pass: it continued after each pass but the last (the first
      compared against `mBegin`, every later one against its predecessor's score) and stopped
      after the last, and every continuing pass appended its modularity to the trace. */
  predicate TraceFacts(mBegin: Option<real>, trace: seq<real>, iteration: nat, maxIter: int, tol: real,
                       passes: seq<StepOutcome>, modularities: seq<real>)
  {
    && |passes| > 0
    && |modularities| == |trace| + |passes| - 1
    && modularities[..|trace|] == trace
    && (forall q :: 0 <= q < |passes| - 1 ==> modularities[|trace| + q] == passes[q].modularity)
    && (|passes| > 1 ==> Continues(mBegin, passes[0].mEnd, tol, iteration + 1, maxIter))
    && (forall q :: 0 <= q < |passes| - 2 ==>
          Continues(Some(passes[q].mEnd), passes[q + 1].mEnd, tol, iteration + q + 2, maxIter))
    && !Continues(PrevScore(mBegin, passes, |passes| - 1), passes[|passes| - 1].mEnd, tol, iteration + |passes|, maxIter)
  }

  /** What a run started at iteration count `iteration`, previous score `mBegin` and trace `trace`
      guarantees about its result: the passes it made, chained and scored as above; the
      iteration count, the labels, the modularity and X are those of the last pass. */
  predicate RunFacts(x: Matrix, b: Matrix, w: Labels, n: nat, d: nat, k: nat, missing: seq<Coord>,
                     maxIter: int, tol: real, mBegin: Option<real>, trace: seq<real>, iteration: nat, res: RunResult)
    requires k > 0 && IsMatrix(x, n, d) && IsMatrix(b, n, d)
    requires |w| == d && ValidLabels(w, k) && CoordsIn(missing, n, d)
  {
    && PassesChained(x, b, w, n, d, k, missing, res.passes)
    && TraceFacts(mBegin, trace, iteration, maxIter, tol, res.passes, res.modularities)
    && var last := res.passes[|res.passes| - 1];
    && res.iterations == iteration + |res.passes|
    && res.rowLabels == last.z && res.columnLabels == last.w
    && res.modularity == last.modularity
    && res.x == last.x
    && SameObserved(x, res.x, n, d, missing)
  }

  /** Bookkeeping that follows from RunFacts: iteration bounds, trace length, label shapes. */
  lemma RunFactsBounds(x: Matrix, b: Matrix, w: Labels, n: nat, d: nat, k: nat, missing: seq<Coord>,
                       maxIter: int, tol: real, mBegin: Option<real>, trace: seq<real>, iteration: nat, res: RunResult)
    requires k > 0 && IsMatrix(x, n, d) && IsMatrix(b, n, d)
    requires |w| == d && ValidLabels(w, k) && CoordsIn(missing, n, d)
    requires RunFacts(x, b, w, n, d, k, missing, maxIter, tol, mBegin, trace, iteration, res)
    ensures iteration + 1 <= res.iterations
    ensures res.iterations == iteration + 1 || res.iterations <= maxIter
    ensures |res.modularities| == |trace| + res.iterations - iteration - 1
    ensures |res.rowLabels| == n && ValidLabels(res.rowLabels, k)
    ensures |res.columnLabels| == d && ValidLabels(res.columnLabels, k)
    ensures IsMatrix(res.x, n, d)
  {
    var ps := res.passes;
    var L := |ps| - 1;
    if L > 0 {
      assert Continues(PrevScore(mBegin, ps, L - 1), ps[L - 1].mEnd, tol, iteration + L, maxIter);
    }
    if L == 0 {
      assert StepFacts(x, b, w, n, d, k, missing, ps[0]);
    } else {
      assert StepFacts(ps[L - 1].x, ps[L - 1].b, ps[L - 1].w, n, d, k, missing, ps[L]);
    }
  }

  /** The loop from iteration count `iteration` on, with previous score `mBegin` (None stands
      for the initial -inf) and the trace recorded so far. The loop continues while the score
      moved by more than `tol` and the incremented iteration count is below `maxIter`. */
  function Loop(x: Matrix, b: Matrix, w: Labels, n: nat, d: nat, k: nat, missing: seq<Coord>,
                maxIter: int, tol: real, mBegin: Option<real>, trace: seq<real>, iteration: nat): (r: Result<RunResult>)
    requires k > 0 && IsMatrix(x, n, d) && IsMatrix(b, n, d)
    requires |w| == d && ValidLabels(w, k) && CoordsIn(missing, n, d)
    ensures r.Failure? ==> r.error == NumericalDegeneracy
    decreases maxIter - iteration
  {
    match Step(x, b, w, n, d, k, missing)
    case Failure(e) => Failure(e)
    case Success(s) =>
      var it := iteration + 1;
      if Continues(mBegin, s.mEnd, tol, it, maxIter) then
        var trace' := trace + [s.modularity];
        var rest := Loop(s.x, s.b, s.w, n, d, k, missing, maxIter, tol, Some(s.mEnd), trace', it);
        if rest.Success? then Success(rest.value.(passes := [s] + rest.value.passes))
        else rest
      else
        Success(RunResult(RowArgmax(OneHot(s.z, k), k), RowArgmax(OneHot(s.w, k), k),
                          s.modularity, trace, it, s.x, [s]))
  }

  /** Every successful run of the loop satisfies RunFacts: its passes are the chained results
      of Step, the trace and the stopping rule are those of the `while change` loop, and the
      result reports the last pass. */
  lemma {:induction false} LoopFacts(x: Matrix, b: Matrix, w: Labels, n: nat, d: nat, k: nat, missing: seq<Coord>,
                                     maxIter: int, tol: real, mBegin: Option<real>, trace: seq<real>, iteration: nat)
    requires k > 0 && IsMatrix(x, n, d) && IsMatrix(b, n, d)
    requires |w| == d && ValidLabels(w, k) && CoordsIn(missing, n, d)
    ensures
      var r := Loop(x, b, w, n, d, k, missing, maxIter, tol, mBegin, trace, iteration);
      r.Success? ==> RunFacts(x, b, w, n, d, k, missing, maxIter, tol, mBegin, trace, iteration, r.value)
    decreases maxIter - iteration
  {
    match Step(x, b, w, n, d, k, missing)
    case Failure(_) =>
    case Success(s) =>
      var it := iteration + 1;
      StepSpec(x, b, w, n, d, k, missing);
      if Continues(mBegin, s.mEnd, tol, it, maxIter) {
        var trace' := trace + [s.modularity];
        LoopFacts(s.x, s.b, s.w, n, d, k, missing, maxIter, tol, Some(s.mEnd), trace', it);
        var rest := Loop(s.x, s.b, s.w, n, d, k, missing, maxIter, tol, Some(s.mEnd), trace', it);
        if rest.Success? {
          RunFactsExtend(x, b, w, n, d, k, missing, maxIter, tol, mBegin, trace, iteration, s, rest.value);
        }
      } else {
        RunFactsLast(x, b, w, n, d, k, missing, maxIter, tol, mBegin, trace, iteration, s);
      }
  }

  /** On non-negative data with a positive entry the loop never fails. */
  lemma {:induction false} LoopSucceeds(x: Matrix, b: Matrix, w: Labels, n: nat, d: nat, k: nat, missing: seq<Coord>,
                                        maxIter: int, tol: real, mBegin: Option<real>, trace: seq<real>, iteration: nat)
    requires k > 0 && IsMatrix(x, n, d) && IsMatrix(b, n, d)
    requires |w| == d && ValidLabels(w, k) && CoordsIn(missing, n, d)
    ensures NonNegative(x) && HasPositive(x) ==>
      Loop(x, b, w, n, d, k, missing, maxIter, tol, mBegin, trace, iteration).Success?
    decreases maxIter - iteration
  {
    StepSucceeds(x, b, w, n, d, k, missing);
    var r := Step(x, b, w, n, d, k, missing);
    if NonNegative(x) && HasPositive(x) {
      var s := r.value;
      var it := iteration + 1;
      if Continues(mBegin, s.mEnd, tol, it, maxIter) {
        LoopSucceeds(s.x, s.b, s.w, n, d, k, missing, maxIter, tol, Some(s.mEnd), trace + [s.modularity], it);
      }
    }
  }

  /** A pass after which the loop stops gives a run whose only pass it is. */
  lemma RunFactsLast(x: Matrix, b: Matrix, w: Labels, n: nat, d: nat, k: nat, missing: seq<Coord>,
                     maxIter: int, tol: real, mBegin: Option<real>, trace: seq<real>, iteration: nat,
                     s: StepOutcome)
    requires k > 0 && IsMatrix(x, n, d) && IsMatrix(b, n, d)
    requires |w| == d && ValidLabels(w, k) && CoordsIn(missing, n, d)
    requires StepFacts(x, b, w, n, d, k, missing, s)
    requires !Continues(mBegin, s.mEnd, tol, iteration + 1, maxIter)
    ensures RunFacts(x, b, w, n, d, k, missing, maxIter, tol, mBegin, trace, iteration,
                     RunResult(RowArgmax(OneHot(s.z, k), k), RowArgmax(OneHot(s.w, k), k),
                               s.modularity, trace, iteration + 1, s.x, [s]))
  {
    StepFactsMeaning(x, b, w, n, d, k, missing, s);
    ArgmaxOfOneHot(s.z, k);
    ArgmaxOfOneHot(s.w, k);
    assert PassesChained(x, b, w, n, d, k, missing, [s]);
    assert trace[..|trace|] == trace;
    assert TraceFacts(mBegin, trace, iteration, maxIter, tol, [s], trace);
  }

  /** The facts of the remaining passes carry over to the run that made one more pass first. */
  lemma RunFactsExtend(x: Matrix, b: Matrix, w: Labels, n: nat, d: nat, k: nat, missing: seq<Coord>,
                       maxIter: int, tol: real, mBegin: Option<real>, trace: seq<real>, iteration: nat,
                       s: StepOutcome, rest: RunResult)
    requires k > 0 && IsMatrix(x, n, d) && IsMatrix(b, n, d)
    requires |w| == d && ValidLabels(w, k) && CoordsIn(missing, n, d)
    requires StepFacts(x, b, w, n, d, k, missing, s)
    requires Continues(mBegin, s.mEnd, tol, iteration + 1, maxIter)
    requires RunFacts(s.x, s.b, s.w, n, d, k, missing, maxIter, tol, Some(s.mEnd),
                      trace + [s.modularity], iteration + 1, rest)
    ensures RunFacts(x, b, w, n, d, k, missing, maxIter, tol, mBegin, trace, iteration,
                     rest.(passes := [s] + rest.passes))
  {
    var ps := [s] + rest.passes;
    var trace' := trace + [s.modularity];
    PassesChainedCons(x, b, w, n, d, k, missing, s, rest.passes);
    TraceFactsCons(mBegin, trace, iteration, maxIter, tol, s, rest.passes, rest.modularities);
    assert ps[|ps| - 1] == rest.passes[|rest.passes| - 1];
    StepFactsMeaning(x, b, w, n, d, k, missing, s);
    SameObservedTrans(x, s.x, rest.x, n, d, missing);
  }

  lemma PassesChainedCons(x: Matrix, b: Matrix, w: Labels, n: nat, d: nat, k: nat, missing: seq<Coord>,
                          s: StepOutcome, rest: seq<StepOutcome>)
    requires k > 0 && IsMatrix(x, n, d) && IsMatrix(b, n, d)
    requires |w| == d && ValidLabels(w, k) && CoordsIn(missing, n, d)
    requires StepFacts(x, b, w, n, d, k, missing, s)
    requires PassesChained(s.x, s.b, s.w, n, d, k, missing, rest)
    ensures PassesChained(x, b, w, n, d, k, missing, [s] + rest)
  {
    var ps := [s] + rest;
    assert forall q :: 0 < q < |ps| ==> ps[q] == rest[q - 1];
    forall q | 0 <= q < |ps| - 1
      ensures StepFacts(ps[q].x, ps[q].b, ps[q].w, n, d, k, missing, ps[q + 1])
    {
      if q > 0 {
        assert StepFacts(rest[q - 1].x, rest[q - 1].b, rest[q - 1].w, n, d, k, missing, rest[q]);
      }
    }
  }

  lemma TraceFactsCons(mBegin: Option<real>, trace: seq<real>, iteration: nat, maxIter: int, tol: real,
                       s: StepOutcome, rest: seq<StepOutcome>, mods: seq<real>)
    requires Continues(mBegin, s.mEnd, tol, iteration + 1, maxIter)
    requires TraceFacts(Some(s.mEnd), trace + [s.modularity], iteration + 1, maxIter, tol, rest, mods)
    ensures TraceFacts(mBegin, trace, iteration, maxIter, tol, [s] + rest, mods)
  {
    var ps := [s] + rest;
    var trace' := trace + [s.modularity];
    assert mods[..|trace'|] == trace';
    assert mods[..|trace|] == mods[..|trace'|][..|trace|];
    assert mods[|trace|] == mods[..|trace'|][|trace|];
    assert forall q :: 0 < q < |ps| ==> ps[q] == rest[q - 1];
    if |rest| > 1 {
      assert Continues(Some(ps[0].mEnd), ps[1].mEnd, tol, iteration + 2, maxIter);
    }
  }

  /** `_fit_single` with the initial column partition given as labels `init`. */
  function FitSingle(x: Matrix, n: nat, d: nat, k: nat, missing: seq<Coord>, init: Labels,
                     maxIter: int, tol: real): (r: Result<RunResult>)
    requires k > 0 && IsMatrix(x, n, d)
    requires |init| == d && ValidLabels(init, k) && CoordsIn(missing, n, d)
    ensures Total(x) == 0.0 ==> r == Failure(NumericalDegeneracy)
    ensures r.Failure? ==> r.error == NumericalDegeneracy
    ensures r.Success? ==>
      var res := r.value;
      && 1 <= res.iterations
      && (res.iterations == 1 || res.iterations <= maxIter)
      && |res.modularities| == res.iterations - 1
      && |res.rowLabels| == n && ValidLabels(res.rowLabels, k)
      && |res.columnLabels| == d && ValidLabels(res.columnLabels, k)
      && IsMatrix(res.x, n, d) && SameObserved(x, res.x, n, d, missing)
  {
    match ComputeModularityMatrix(x, n, d)
    case Failure(e) => Failure(e)
    case Success(m0) =>
      var r := Loop(x, m0.b, init, n, d, k, missing, maxIter, tol, None, [], 0);
      if r.Success? then
        LoopFacts(x, m0.b, init, n, d, k, missing, maxIter, tol, None, [], 0);
        RunFactsBounds(x, m0.b, init, n, d, k, missing, maxIter, tol, None, [], 0, r.value);
        r
      else r
  }

  /** A successful run is the loop started on the modularity matrix of X with the initial
      column labels, previous score -inf, an empty trace and iteration count 0: its passes are
      chained, its trace holds each continuing pass's modularity, it stopped exactly when the
      score settled or the cap was reached, and it reports the last pass's labels, modularity
      and matrix. */
  lemma FitSingleFacts(x: Matrix, n: nat, d: nat, k: nat, missing: seq<Coord>, init: Labels,
                       maxIter: int, tol: real)
    requires k > 0 && IsMatrix(x, n, d)
    requires |init| == d && ValidLabels(init, k) && CoordsIn(missing, n, d)
    ensures
      var r := FitSingle(x, n, d, k, missing, init, maxIter, tol);
      r.Success? ==>
        && Total(x) != 0.0
        && RunFacts(x, ComputeModularityMatrix(x, n, d).value.b, init, n, d, k, missing,
                    maxIter, tol, None, [], 0, r.value)
  {
    if Total(x) != 0.0 {
      var b0 := ComputeModularityMatrix(x, n, d).value.b;
      LoopFacts(x, b0, init, n, d, k, missing, maxIter, tol, None, [], 0);
    }
  }

  /** A run on a non-negative matrix with positive total never degenerates: imputation writes
      block means, which keep every entry non-negative and some entry positive, so no rebuild
      of B meets a zero mass. */
  lemma FitSingleSucceeds(x: Matrix, n: nat, d: nat, k: nat, missing: seq<Coord>, init: Labels,
                          maxIter: int, tol: real)
    requires k > 0 && IsMatrix(x, n, d)
    requires |init| == d && ValidLabels(init, k) && CoordsIn(missing, n, d)
    ensures NonNegative(x) && Total(x) > 0.0 ==> FitSingle(x, n, d, k, missing, init, maxIter, tol).Success?
  {
    if NonNegative(x) && Total(x) > 0.0 {
      PositiveTotal(x);
      var b0 := ComputeModularityMatrix(x, n, d).value.b;
      LoopSucceeds(x, b0, init, n, d, k, missing, maxIter, tol, None, [], 0);
    }
  }
}
