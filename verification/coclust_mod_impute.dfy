/** `CoclustModImpute.fit`: detect the missing (NaN) cells, pre-fill them, check the shape,
    then run the single-run optimiser once per restart and keep the best result. */
module CoclustModImpute {
  import opened Results
  import opened Matrices
  import opened Partitions
  import opened Blocks
  import opened SingleRun

  /** The input matrix before filling: `None` marks a NaN cell. */
  type RawMatrix = seq<seq<Option<real>>>

  predicate IsRawMatrix(raw: RawMatrix, n: nat, d: nat) {
    |raw| == n && forall i :: 0 <= i < |raw| ==> |raw[i]| == d
  }

  /** The `initial_vals` argument: `'zero'`, an explicit array of fill values, or any other value
      (neither an array nor one of the recognised strings), which leaves the NaN cells as they are. */
  datatype InitialVals = Zero | Given(vals: seq<real>) | Unfilled

  /** The best result so far: its modularity (`None` is -inf) and the run it came from. */
  datatype Selection = Selection(modularity: Option<real>, best: Option<RunResult>)

  /** The fitted estimator: the selection and the final `X_`. */
  datatype Fitted = Fitted(selection: Selection, x: Matrix)

  // ---------------------------------------------------------------------------
  // Missing cells

  /** Cell `p` comes strictly before cell `q` in row-major order. */
  predicate Before(p: Coord, q: Coord) {
    p.row < q.row || (p.row == q.row && p.col < q.col)
  }

  predicate RowMajor(cells: seq<Coord>) {
    forall s, t :: 0 <= s < t < |cells| ==> Before(cells[s], cells[t])
  }

  /** The NaN cells of row `i`, by increasing column. */
  function RowMissing(row: seq<Option<real>>, i: nat): (cells: seq<Coord>)
    ensures forall t :: 0 <= t < |cells| ==> cells[t].row == i && cells[t].col < |row| && row[cells[t].col].None?
    ensures forall j :: 0 <= j < |row| && row[j].None? ==> Coord(i, j) in cells
    ensures forall s, t :: 0 <= s < t < |cells| ==> cells[s].col < cells[t].col
  {
    if |row| == 0 then []
    else
      var m := |row| - 1;
      var prev := RowMissing(row[..m], i);
      assert forall j :: 0 <= j < m ==> row[..m][j] == row[j];
      if row[m].None? then prev + [Coord(i, m)] else prev
  }

  /** `np.where(np.isnan(X_))`: every NaN cell exactly once, in row-major order. */
  function MissingCells(raw: RawMatrix, d: nat): (cells: seq<Coord>)
    requires IsRawMatrix(raw, |raw|, d)
    ensures CoordsIn(cells, |raw|, d)
    ensures forall t :: 0 <= t < |cells| ==> raw[cells[t].row][cells[t].col].None?
    ensures forall i, j :: 0 <= i < |raw| && 0 <= j < d && raw[i][j].None? ==> Coord(i, j) in cells
    ensures RowMajor(cells)
  {
    if |raw| == 0 then []
    else
      var m := |raw| - 1;
      var prev := MissingCells(raw[..m], d);
      var last := RowMissing(raw[m], m);
      var cells := prev + last;
      assert forall t :: 0 <= t < |prev| ==> cells[t] == prev[t];
      assert forall t :: 0 <= t < |last| ==> cells[|prev| + t] == last[t];
      assert forall i :: 0 <= i < m ==> raw[..m][i] == raw[i];
      AppendRowMajor(prev, last, m);
      cells
  }

  /** Cells of earlier rows followed by the cells of row m by increasing column stay row-major. */
  lemma AppendRowMajor(prev: seq<Coord>, last: seq<Coord>, m: nat)
    requires RowMajor(prev) && forall t :: 0 <= t < |prev| ==> prev[t].row < m
    requires forall t :: 0 <= t < |last| ==> last[t].row == m
    requires forall s, t :: 0 <= s < t < |last| ==> last[s].col < last[t].col
    ensures RowMajor(prev + last)
  {
    var cells := prev + last;
    forall s, t | 0 <= s < t < |cells|
      ensures Before(cells[s], cells[t])
    {
      if t < |prev| {
        assert cells[s] == prev[s] && cells[t] == prev[t];
      } else if s < |prev| {
        assert cells[s] == prev[s] && cells[t] == last[t - |prev|];
      } else {
        assert cells[s] == last[s - |prev|] && cells[t] == last[t - |prev|];
      }
    }
  }

  // ---------------------------------------------------------------------------
  // Pre-filling

  /** The observed values of `raw`, with 0 standing in the NaN cells until they are filled. */
  function Observed(raw: RawMatrix, n: nat, d: nat): (x: Matrix)
    requires IsRawMatrix(raw, n, d)
    ensures IsMatrix(x, n, d)
    ensures forall i, j :: 0 <= i < n && 0 <= j < d && raw[i][j].Some? ==> x[i][j] == raw[i][j].value
  {
    seq(n, i requires 0 <= i < n => seq(d, j requires 0 <= j < d =>
      if raw[i][j].Some? then raw[i][j].value else 0.0))
  }

  predicate Distinct(cells: seq<Coord>) {
    forall s, t :: 0 <= s < t < |cells| ==> cells[s] != cells[t]
  }

  /** `X[r, c] = vals`: cell `cells[t]` receives `vals[t]`, every other cell is kept. */
  function Assign(x: Matrix, n: nat, d: nat, cells: seq<Coord>, vals: seq<real>): (r: Matrix)
    requires IsMatrix(x, n, d) && CoordsIn(cells, n, d) && Distinct(cells) && |vals| == |cells|
    ensures IsMatrix(r, n, d)
    ensures forall t :: 0 <= t < |cells| ==> r[cells[t].row][cells[t].col] == vals[t]
    ensures forall i, j :: 0 <= i < n && 0 <= j < d && Coord(i, j) !in cells ==> r[i][j] == x[i][j]
    decreases |cells|
  {
    if |cells| == 0 then x
    else
      var m := |cells| - 1;
      var prev := Assign(x, n, d, cells[..m], vals[..m]);
      var c := cells[m];
      assert forall t :: 0 <= t < m ==> cells[..m][t] == cells[t] && vals[..m][t] == vals[t];
      assert forall i, j :: Coord(i, j) !in cells ==> Coord(i, j) !in cells[..m];
      prev[c.row := prev[c.row][c.col := vals[m]]]
  }

  /** The values `initial_vals` writes into the missing cells: zeros, the given array, or its single
      value broadcast; any other length cannot be broadcast. An unrecognised `initial_vals` writes
      nothing, so any missing cell stays NaN and the finiteness check rejects the matrix. */
  function FillValues(initial: InitialVals, count: nat): (r: Result<seq<real>>)
    ensures r.Success? ==> |r.value| == count
    ensures r.Failure? <==>
      || (initial.Given? && |initial.vals| != count && |initial.vals| != 1)
      || (initial.Unfilled? && count > 0)
    ensures r.Failure? && initial.Given? ==> r.error == ShapeMismatch
    ensures r.Failure? && !initial.Given? ==> r.error == NonFinite
    ensures r.Success? && initial.Zero? ==> forall t :: 0 <= t < count ==> r.value[t] == 0.0
    ensures r.Success? && initial.Given? && |initial.vals| == count ==> r.value == initial.vals
    ensures r.Success? && initial.Given? && |initial.vals| == 1 ==> forall t :: 0 <= t < count ==> r.value[t] == initial.vals[0]
  {
    match initial
    case Zero => Success(seq(count, _ => 0.0))
    case Given(vals) =>
      if |vals| == count then Success(vals)
      else if |vals| == 1 then Success(seq(count, _ => vals[0]))
      else Failure(ShapeMismatch)
    case Unfilled =>
      if count == 0 then Success([]) else Failure(NonFinite)
  }

  // ---------------------------------------------------------------------------
  // Restarts

  /** Replace the selection only on a strictly greater modularity (anything beats -inf). */
  function Choose(sel: Selection, run: RunResult): (r: Selection)
    ensures r.modularity.Some? && run.modularity <= r.modularity.value
    ensures sel.modularity.Some? ==> sel.modularity.value <= r.modularity.value
    ensures r == sel || r == Selection(Some(run.modularity), Some(run))
    ensures r == sel <==> sel.modularity.Some? && run.modularity <= sel.modularity.value
  {
    if sel.modularity.None? || run.modularity > sel.modularity.value
    then Selection(Some(run.modularity), Some(run))
    else sel
  }

  /** Initial column labels fit for every restart. */
  predicate ValidInits(inits: seq<Labels>, d: nat, k: nat) {
    forall p :: 0 <= p < |inits| ==> |inits[p]| == d && ValidLabels(inits[p], k)
  }

  /** The restart loop of `fit`. All restarts share one matrix that each imputes in place, so a
      restart starts from the previous restart's final X and the matrix reported at the end is
      the last restart's, whichever restart was selected. A degenerate restart aborts the fit. */
  function RestartFold(x: Matrix, n: nat, d: nat, k: nat, missing: seq<Coord>, inits: seq<Labels>,
                       maxIter: int, tol: real, sel: Selection): (r: Result<Fitted>)
    requires k > 0 && IsMatrix(x, n, d) && CoordsIn(missing, n, d) && ValidInits(inits, d, k)
    ensures r.Failure? ==> r.error == NumericalDegeneracy
    ensures r.Success? ==> IsMatrix(r.value.x, n, d) && SameObserved(x, r.value.x, n, d, missing)
    ensures |inits| == 0 ==> r == Success(Fitted(sel, x))
    decreases |inits|
  {
    if |inits| == 0 then Success(Fitted(sel, x))
    else
      match FitSingle(x, n, d, k, missing, inits[0], maxIter, tol)
      case Failure(e) => Failure(e)
      case Success(run) =>
        var rest := RestartFold(run.x, n, d, k, missing, inits[1..], maxIter, tol, Choose(sel, run));
        if rest.Success? then
          SameObservedTrans(x, run.x, rest.value.x, n, d, missing);
          rest
        else rest
  }

  /** The start of `fit`: locate the NaN cells and write the initial values into them. */
  function Prefill(raw: RawMatrix, n: nat, d: nat, initial: InitialVals): (r: Result<Matrix>)
    requires IsRawMatrix(raw, n, d)
    ensures r.Success? <==> FillValues(initial, |MissingCells(raw, d)|).Success?
    ensures r.Failure? ==> r.error == FillValues(initial, |MissingCells(raw, d)|).error
    ensures initial.Unfilled? ==> (r.Success? <==> forall i, j :: 0 <= i < n && 0 <= j < d ==> raw[i][j].Some?)
    ensures r.Success? ==>
      var missing := MissingCells(raw, d);
      var vals := FillValues(initial, |missing|).value;
      && IsMatrix(r.value, n, d)
      && (forall t :: 0 <= t < |missing| ==> r.value[missing[t].row][missing[t].col] == vals[t])
      && (forall i, j :: 0 <= i < n && 0 <= j < d && raw[i][j].Some? ==> r.value[i][j] == raw[i][j].value)
  {
    var missing := MissingCells(raw, d);
    NoMissingCells(raw, d);
    match FillValues(initial, |missing|)
    case Failure(e) => Failure(e)
    case Success(vals) =>
      assert Distinct(missing) by {
        forall s, t | 0 <= s < t < |missing|
          ensures missing[s] != missing[t]
        {
          assert Before(missing[s], missing[t]);
        }
      }
      var filled := Assign(Observed(raw, n, d), n, d, missing, vals);
      forall i, j | 0 <= i < n && 0 <= j < d && raw[i][j].Some?
        ensures filled[i][j] == raw[i][j].value
      {
        NotMissing(raw, d, missing, i, j);
      }
      Success(filled)
  }

  /** There are no missing cells exactly when every cell is observed. */
  lemma NoMissingCells(raw: RawMatrix, d: nat)
    requires IsRawMatrix(raw, |raw|, d)
    ensures |MissingCells(raw, d)| == 0 <==> forall i, j :: 0 <= i < |raw| && 0 <= j < d ==> raw[i][j].Some?
  {
    var cells := MissingCells(raw, d);
    if |cells| > 0 {
      var c := cells[0];
      assert 0 <= c.row < |raw| && 0 <= c.col < d && raw[c.row][c.col].None?;
    } else {
      forall i, j | 0 <= i < |raw| && 0 <= j < d
        ensures raw[i][j].Some?
      {
      }
    }
  }

  /** `CoclustModImpute.fit`. `prior` is the estimator's `modularity` attribute before the call
      (None, i.e. -inf, for a fresh estimator); `inits` holds one initial column partition per
      restart, so its length is `n_init`. */
  function Fit(raw: RawMatrix, n: nat, d: nat, k: nat, initial: InitialVals, inits: seq<Labels>,
               maxIter: int, tol: real, prior: Option<real>): (r: Result<Fitted>)
    requires IsRawMatrix(raw, n, d) && k > 0 && ValidInits(inits, d, k)
    ensures r.Success? ==> n >= k && d >= k
    ensures r.Success? ==> IsMatrix(r.value.x, n, d)
    ensures r.Success? ==> forall i, j :: 0 <= i < n && 0 <= j < d && raw[i][j].Some? ==>
      r.value.x[i][j] == raw[i][j].value
    ensures Prefill(raw, n, d, initial).Failure? ==> r == Failure(Prefill(raw, n, d, initial).error)
    ensures initial.Given? && Prefill(raw, n, d, initial).Failure? ==> r == Failure(ShapeMismatch)
    ensures initial.Unfilled? && (exists i, j :: 0 <= i < n && 0 <= j < d && raw[i][j].None?) ==> r == Failure(NonFinite)
    ensures Prefill(raw, n, d, initial).Success? && (n < k || d < k) ==> r == Failure(InvalidShape)
  {
    var missing := MissingCells(raw, d);
    match Prefill(raw, n, d, initial)
    case Failure(e) => Failure(e)
    case Success(filled) =>
      if n < k || d < k then Failure(InvalidShape)
      else
        var res := RestartFold(filled, n, d, k, missing, inits, maxIter, tol, Selection(prior, None));
        if res.Success? then
          ObservedKept(raw, n, d, missing, filled, res.value.x);
          res
        else res
  }

  /** An observed cell is not among the missing cells. */
  lemma NotMissing(raw: RawMatrix, d: nat, missing: seq<Coord>, i: nat, j: nat)
    requires IsRawMatrix(raw, |raw|, d) && missing == MissingCells(raw, d)
    requires i < |raw| && j < d && raw[i][j].Some?
    ensures Coord(i, j) !in missing
  {
    forall t | 0 <= t < |missing|
      ensures missing[t] != Coord(i, j)
    {
    }
  }

  /** A cell observed in `raw` is not missing, so it survives the fill and every imputation. */
  lemma ObservedKept(raw: RawMatrix, n: nat, d: nat, missing: seq<Coord>, filled: Matrix, x: Matrix)
    requires IsRawMatrix(raw, n, d) && IsMatrix(filled, n, d) && IsMatrix(x, n, d)
    requires missing == MissingCells(raw, d)
    requires forall i, j :: 0 <= i < n && 0 <= j < d && raw[i][j].Some? ==> filled[i][j] == raw[i][j].value
    requires SameObserved(filled, x, n, d, missing)
    ensures forall i, j :: 0 <= i < n && 0 <= j < d && raw[i][j].Some? ==> x[i][j] == raw[i][j].value
  {
    forall i, j | 0 <= i < n && 0 <= j < d && raw[i][j].Some?
      ensures x[i][j] == raw[i][j].value
    {
      NotMissing(raw, d, missing, i, j);
    }
  }

  // ---------------------------------------------------------------------------
  // Restart selection, stated over the sequence of completed runs

  /** The runs of all restarts, each started from the matrix the previous one left behind;
      fails as soon as one restart is degenerate. */
  function Runs(x: Matrix, n: nat, d: nat, k: nat, missing: seq<Coord>, inits: seq<Labels>,
                maxIter: int, tol: real): (r: Result<seq<RunResult>>)
    requires k > 0 && IsMatrix(x, n, d) && CoordsIn(missing, n, d) && ValidInits(inits, d, k)
    ensures r.Failure? ==> r.error == NumericalDegeneracy
    ensures r.Success? ==> |r.value| == |inits| && forall p :: 0 <= p < |inits| ==> IsMatrix(r.value[p].x, n, d)
    decreases |inits|
  {
    if |inits| == 0 then Success([])
    else
      match FitSingle(x, n, d, k, missing, inits[0], maxIter, tol)
      case Failure(e) => Failure(e)
      case Success(run) =>
        match Runs(run.x, n, d, k, missing, inits[1..], maxIter, tol)
        case Failure(e) => Failure(e)
        case Success(rest) =>
          ConsMatrices(run, rest, n, d);
          Success([run] + rest)
  }

  lemma ConsMatrices(run: RunResult, rest: seq<RunResult>, n: nat, d: nat)
    requires IsMatrix(run.x, n, d) && forall p :: 0 <= p < |rest| ==> IsMatrix(rest[p].x, n, d)
    ensures forall p :: 0 <= p < |rest| + 1 ==> IsMatrix(([run] + rest)[p].x, n, d)
  {
  }

  /** The matrix left behind after the runs `rs`, started from `x`. */
  function LastX(x: Matrix, rs: seq<RunResult>): Matrix {
    if |rs| == 0 then x else rs[|rs| - 1].x
  }

  /** The strict-greater selection applied to already completed runs, in order. */
  function SelectFrom(sel: Selection, rs: seq<RunResult>): Selection
    decreases |rs|
  {
    if |rs| == 0 then sel else SelectFrom(Choose(sel, rs[0]), rs[1..])
  }

  function Modularities(rs: seq<RunResult>): seq<real> {
    seq(|rs|, p requires 0 <= p < |rs| => rs[p].modularity)
  }

  /** The selection holding run `rs[t]`. */
  function Picked(rs: seq<RunResult>, t: nat): Selection
    requires t < |rs|
  {
    Selection(Some(rs[t].modularity), Some(rs[t]))
  }

  /** Running and selecting as one fold is the same as running every restart first and then
      selecting over the results; in particular the fold fails exactly when some restart does. */
  lemma RestartFoldIsSelectAfterRuns(x: Matrix, n: nat, d: nat, k: nat, missing: seq<Coord>,
                                     inits: seq<Labels>, maxIter: int, tol: real, sel: Selection)
    requires k > 0 && IsMatrix(x, n, d) && CoordsIn(missing, n, d) && ValidInits(inits, d, k)
    ensures RestartFold(x, n, d, k, missing, inits, maxIter, tol, sel).Success?
        <==> Runs(x, n, d, k, missing, inits, maxIter, tol).Success?
    ensures Runs(x, n, d, k, missing, inits, maxIter, tol).Success? ==>
      var rs := Runs(x, n, d, k, missing, inits, maxIter, tol).value;
      RestartFold(x, n, d, k, missing, inits, maxIter, tol, sel) == Success(Fitted(SelectFrom(sel, rs), LastX(x, rs)))
  {
    FoldSuccessNeedsRuns(x, n, d, k, missing, inits, maxIter, tol, sel);
    FoldAfterRuns(x, n, d, k, missing, inits, maxIter, tol, sel);
  }

  lemma {:induction false} FoldSuccessNeedsRuns(x: Matrix, n: nat, d: nat, k: nat, missing: seq<Coord>,
                                                inits: seq<Labels>, maxIter: int, tol: real, sel: Selection)
    requires k > 0 && IsMatrix(x, n, d) && CoordsIn(missing, n, d) && ValidInits(inits, d, k)
    ensures RestartFold(x, n, d, k, missing, inits, maxIter, tol, sel).Success?
        ==> Runs(x, n, d, k, missing, inits, maxIter, tol).Success?
    decreases |inits|
  {
    if |inits| > 0 {
      var f := FitSingle(x, n, d, k, missing, inits[0], maxIter, tol);
      if f.Success? {
        FoldSuccessNeedsRuns(f.value.x, n, d, k, missing, inits[1..], maxIter, tol, Choose(sel, f.value));
      }
    }
  }

  lemma {:induction false} FoldAfterRuns(x: Matrix, n: nat, d: nat, k: nat, missing: seq<Coord>,
                                         inits: seq<Labels>, maxIter: int, tol: real, sel: Selection)
    requires k > 0 && IsMatrix(x, n, d) && CoordsIn(missing, n, d) && ValidInits(inits, d, k)
    ensures Runs(x, n, d, k, missing, inits, maxIter, tol).Success? ==>
      var rs := Runs(x, n, d, k, missing, inits, maxIter, tol).value;
      RestartFold(x, n, d, k, missing, inits, maxIter, tol, sel) == Success(Fitted(SelectFrom(sel, rs), LastX(x, rs)))
    decreases |inits|
  {
    if |inits| > 0 {
      var f := FitSingle(x, n, d, k, missing, inits[0], maxIter, tol);
      if f.Success? {
        var run := f.value;
        FoldAfterRuns(run.x, n, d, k, missing, inits[1..], maxIter, tol, Choose(sel, run));
        var rest := Runs(run.x, n, d, k, missing, inits[1..], maxIter, tol);
        if rest.Success? {
          SelectFromCons(x, sel, run, rest.value);
        }
      }
    }
  }

  /** Selecting over `[run] + rest` is selecting over `rest` after choosing on `run`, and the
      matrix left behind is the one `rest` leaves when started from `run`'s. */
  lemma SelectFromCons(x: Matrix, sel: Selection, run: RunResult, rest: seq<RunResult>)
    ensures SelectFrom(sel, [run] + rest) == SelectFrom(Choose(sel, run), rest)
    ensures LastX(x, [run] + rest) == LastX(run.x, rest)
  {
    assert ([run] + rest)[1..] == rest;
  }

  /** Scanning the first p runs from an empty selection leaves the first run of maximal
      modularity among them selected. */
  lemma {:induction false} SelectScan(rs: seq<RunResult>, p: nat)
    requires 1 <= p <= |rs|
    ensures SelectFrom(Selection(None, None), rs) == SelectFrom(Picked(rs, Argmax(Modularities(rs)[..p])), rs[p..])
    decreases p
  {
    var mods := Modularities(rs);
    if p == 1 {
      assert rs[1..] == rs[p..];
    } else {
      SelectScan(rs, p - 1);
      var t := Argmax(mods[..p - 1]);
      assert rs[p - 1..][1..] == rs[p..];
      assert SelectFrom(Picked(rs, t), rs[p - 1..]) == SelectFrom(Choose(Picked(rs, t), rs[p - 1]), rs[p..]);
      assert Choose(Picked(rs, t), rs[p - 1]) == Picked(rs, Argmax(mods[..p])) by {
        assert mods[..p][..p - 1] == mods[..p - 1];
        assert mods[..p][p - 1] == rs[p - 1].modularity && mods[..p - 1][t] == rs[t].modularity;
      }
    }
  }

  /** Selecting from a fresh selection over a non-empty list of runs keeps the run at the
      first-index argmax of their modularities: by the contract of `Argmax`, the FIRST run whose
      modularity is maximal, which a later run with an equal modularity does not replace. */
  lemma FreshSelectionIsFirstMaximal(rs: seq<RunResult>)
    requires |rs| > 0
    ensures SelectFrom(Selection(None, None), rs) == Picked(rs, Argmax(Modularities(rs)))
  {
    var mods := Modularities(rs);
    SelectScan(rs, |rs|);
    assert mods[..|rs|] == mods;
    assert rs[|rs|..] == [];
  }

  /** From a fresh estimator, `fit` keeps the first restart of maximal modularity and reports
      the matrix left by the last restart. */
  lemma FreshFoldSelectsFirstMaximal(x: Matrix, n: nat, d: nat, k: nat, missing: seq<Coord>,
                                     inits: seq<Labels>, maxIter: int, tol: real)
    requires k > 0 && IsMatrix(x, n, d) && CoordsIn(missing, n, d) && ValidInits(inits, d, k)
    ensures |inits| > 0 && Runs(x, n, d, k, missing, inits, maxIter, tol).Success? ==>
      var rs := Runs(x, n, d, k, missing, inits, maxIter, tol).value;
      RestartFold(x, n, d, k, missing, inits, maxIter, tol, Selection(None, None))
        == Success(Fitted(Picked(rs, Argmax(Modularities(rs))), rs[|rs| - 1].x))
  {
    var runs := Runs(x, n, d, k, missing, inits, maxIter, tol);
    RestartFoldIsSelectAfterRuns(x, n, d, k, missing, inits, maxIter, tol, Selection(None, None));
    if |inits| > 0 && runs.Success? {
      FreshSelectionIsFirstMaximal(runs.value);
    }
  }

  /** Whatever the prior, the final selection is either the prior itself or one of the runs,
      and its modularity is at least the prior's and at least every run's. (That one more
      restart never lowers it is ExtraRestartNeverLowers.) */
  lemma {:induction false} SelectionBoundsAllRuns(sel: Selection, rs: seq<RunResult>)
    requires sel.modularity.Some? || |rs| > 0
    ensures SelectFrom(sel, rs).modularity.Some?
    ensures forall p :: 0 <= p < |rs| ==> rs[p].modularity <= SelectFrom(sel, rs).modularity.value
    ensures sel.modularity.Some? ==> sel.modularity.value <= SelectFrom(sel, rs).modularity.value
    ensures SelectFrom(sel, rs) == sel || exists p :: 0 <= p < |rs| && SelectFrom(sel, rs) == Picked(rs, p)
    decreases |rs|
  {
    if |rs| > 0 {
      var next := Choose(sel, rs[0]);
      SelectionBoundsAllRuns(next, rs[1..]);
      var fin := SelectFrom(next, rs[1..]);
      assert fin == SelectFrom(sel, rs);
      forall p | 0 <= p < |rs|
        ensures rs[p].modularity <= fin.modularity.value
      {
        if p > 0 {
          assert rs[1..][p - 1] == rs[p];
        }
      }
      if fin != next {
        var q :| 0 <= q < |rs[1..]| && fin == Picked(rs[1..], q);
        assert fin == Picked(rs, q + 1);
      } else if next != sel {
        assert fin == Picked(rs, 0);
      }
    }
  }

  /** `a <= b` on modularities where None is -inf. */
  predicate AtMost(a: Option<real>, b: Option<real>) {
    a.None? || (b.Some? && a.value <= b.value)
  }

  /** Selecting over one more run is choosing on it after selecting over the others. */
  lemma {:induction false} SelectFromSnoc(sel: Selection, rs: seq<RunResult>, run: RunResult)
    ensures SelectFrom(sel, rs + [run]) == Choose(SelectFrom(sel, rs), run)
    decreases |rs|
  {
    if |rs| > 0 {
      assert (rs + [run])[1..] == rs[1..] + [run];
      SelectFromSnoc(Choose(sel, rs[0]), rs[1..], run);
    }
  }

  /** The runs of the first restarts do not depend on the restarts after them: a successful
      fit with one more restart has the same runs as the fit without it, followed by one more. */
  lemma {:induction false} RunsPrefix(x: Matrix, n: nat, d: nat, k: nat, missing: seq<Coord>,
                                      inits: seq<Labels>, init: Labels, maxIter: int, tol: real)
    requires k > 0 && IsMatrix(x, n, d) && CoordsIn(missing, n, d) && ValidInits(inits + [init], d, k)
    ensures ValidInits(inits, d, k)
    ensures Runs(x, n, d, k, missing, inits + [init], maxIter, tol).Success? ==>
      && Runs(x, n, d, k, missing, inits, maxIter, tol).Success?
      && Runs(x, n, d, k, missing, inits + [init], maxIter, tol).value
         == Runs(x, n, d, k, missing, inits, maxIter, tol).value
            + [Runs(x, n, d, k, missing, inits + [init], maxIter, tol).value[|inits|]]
    decreases |inits|
  {
    assert forall p :: 0 <= p < |inits| ==> (inits + [init])[p] == inits[p];
    if |inits| > 0 {
      var all := inits + [init];
      assert all[0] == inits[0] && all[1..] == inits[1..] + [init];
      var f := FitSingle(x, n, d, k, missing, inits[0], maxIter, tol);
      if f.Success? {
        var run := f.value;
        RunsPrefix(run.x, n, d, k, missing, inits[1..], init, maxIter, tol);
        var longer := Runs(run.x, n, d, k, missing, inits[1..] + [init], maxIter, tol);
        if longer.Success? {
          var shorter := Runs(run.x, n, d, k, missing, inits[1..], maxIter, tol).value;
          assert longer.value == shorter + [longer.value[|inits| - 1]];
          assert [run] + longer.value == ([run] + shorter) + [longer.value[|inits| - 1]];
        }
      }
    }
  }

  /** One more restart never lowers the selected modularity. */
  lemma ExtraRestartNeverLowers(x: Matrix, n: nat, d: nat, k: nat, missing: seq<Coord>,
                                inits: seq<Labels>, init: Labels, maxIter: int, tol: real, sel: Selection)
    requires k > 0 && IsMatrix(x, n, d) && CoordsIn(missing, n, d) && ValidInits(inits + [init], d, k)
    ensures ValidInits(inits, d, k)
    ensures Runs(x, n, d, k, missing, inits + [init], maxIter, tol).Success? ==>
      && Runs(x, n, d, k, missing, inits, maxIter, tol).Success?
      && AtMost(SelectFrom(sel, Runs(x, n, d, k, missing, inits, maxIter, tol).value).modularity,
                SelectFrom(sel, Runs(x, n, d, k, missing, inits + [init], maxIter, tol).value).modularity)
  {
    RunsPrefix(x, n, d, k, missing, inits, init, maxIter, tol);
    var longer := Runs(x, n, d, k, missing, inits + [init], maxIter, tol);
    if longer.Success? {
      var rs := Runs(x, n, d, k, missing, inits, maxIter, tol).value;
      SelectFromSnoc(sel, rs, longer.value[|inits|]);
    }
  }

  /** On a well-shaped input, `fit` succeeds exactly when every restart does, and then reports
      the strict-greater selection over the restarts (starting from the prior modularity) and
      the matrix left by the last restart. */
  lemma FitIsSelectionOverRestarts(raw: RawMatrix, n: nat, d: nat, k: nat, initial: InitialVals,
                                   inits: seq<Labels>, maxIter: int, tol: real, prior: Option<real>)
    requires IsRawMatrix(raw, n, d) && k > 0 && ValidInits(inits, d, k)
    requires Prefill(raw, n, d, initial).Success? && n >= k && d >= k
    ensures
      var x := Prefill(raw, n, d, initial).value;
      var runs := Runs(x, n, d, k, MissingCells(raw, d), inits, maxIter, tol);
      && (Fit(raw, n, d, k, initial, inits, maxIter, tol, prior).Success? <==> runs.Success?)
      && (runs.Success? ==> Fit(raw, n, d, k, initial, inits, maxIter, tol, prior)
                              == Success(Fitted(SelectFrom(Selection(prior, None), runs.value), LastX(x, runs.value))))
  {
    var x := Prefill(raw, n, d, initial).value;
    RestartFoldIsSelectAfterRuns(x, n, d, k, MissingCells(raw, d), inits, maxIter, tol, Selection(prior, None));
  }
}
