# Modularity co-clustering with block-mean imputation, in Dafny

This project models `coclust_mod_impute.py`. The module co-clusters a data matrix X into k row
clusters and k column clusters. It does so by greedy maximisation of graph modularity. While it
optimises, it fills in the missing (NaN) cells of X with the mean of the block (co-cluster) they
fall in.

The model is functional. Matrices are `seq<seq<real>>` with explicit dimensions, labels are
`seq<nat>`, and every operation is a pure function with a contract:

- `Matrices` holds sums, dot products, transposition and matrix products, with the Fubini-style
  lemmas used below.
- `Partitions` holds labels, one-hot encodings (`(z == arange(k)) * 1`) and `np.argmax`. The
  argmax is modelled as the first index of the maximum, and `Max` is an independent reference
  for it.
- `Blocks` holds `summarize_blocks`, `get_block_counts` and `_impute_block_representative`.
  `BlockSum` is a reference definition: the plain sum of X over a block.
- `Modularity` holds `_compute_modularity_matrix` and the modularity numerator trace(Zᵀ·BW).
- `SingleRun` holds the loop of `_fit_single`, as a recursive function on a decreasing
  iteration budget. A pass is split into its row half (lines 93-99) and its column half
  (lines 102-111). Besides what `_fit_single` returns, a `RunResult` carries `passes`, the
  values each pass of the loop computed. The lemmas about the loop are stated over this record.
- `Ascent` proves that the loop climbs when no cell is missing. X and B then stay fixed, and
  exchanging the order of summation in trace(Zᵀ·B·W) shows that each half of a pass can only
  raise the score. So the trace of modularities never decreases when N > 0.
- `CoclustModImpute` holds `fit`. That covers missing-cell detection, pre-filling, the shape
  check and the restart loop with strict-greater selection.

Errors are values of `Results.Result`:

- `NumericalDegeneracy` stands for the NaN modularity that `fit` rejects. In the model it
  arises when a matrix of zero mass N reaches the modularity-matrix builder.
- `InvalidShape` is the shape check `n >= k`, `d >= k` that `check_array` enforces.
- `ShapeMismatch` is an `initial_vals` array that cannot be broadcast onto the missing cells.
- `NonFinite` is a NaN cell left unfilled, which the finiteness check of `check_array` rejects.
  It happens when `initial_vals` is neither an array nor one of the strings `fit` recognises.

## Restarts share one matrix

The restarts in `fit` are not independent. The imputer writes into the array it is given
(line 44) and returns it. Every restart is handed the same `X_` (line 231). A restart therefore
starts from the cells imputed by the restart before it.

`X_ = new_X_` (line 241) only re-binds the same array. So the matrix `fit` reports is always the
one left by the last restart, even when an earlier restart was selected.

No restart works on a private copy of the pre-filled matrix. `RestartFold` and `Runs` thread the
matrix from one restart to the next, and `LastX` is what gets reported.

## Model

| member | source | states |
|---|---|---|
| Blocks.SummarizeBlocks | coclust_mod_impute.py:9-22 | ZᵀXW is a k×l matrix. What each entry holds is stated by `SummarizeBlocksIsBlockSum` (the sum of X over the cells of the block) and `SummarizeBlocksTotal`. |
| Blocks.SummarizeBlocksIsBlockSum | coclust_mod_impute.py:9-22 | For one-hot Z and W, entry (a, b) of ZᵀXW is the sum of X over the cells whose row is labelled a and whose column is labelled b. |
| Blocks.SummarizeBlocksTotal | coclust_mod_impute.py:9-22 | For valid labels, the block sums add up to the total of X. |
| Blocks.GetBlockCounts | coclust_mod_impute.py:25-36 | The counts form a k×l matrix. That each count is a block size is stated by `BlockCountsAreSizes`, and that they add up to n·d by `BlockCountsTotal`. |
| Blocks.BlockCountsAreSizes | coclust_mod_impute.py:25-36 | Count C[a][b] is (number of rows labelled a) × (number of columns labelled b). |
| Blocks.BlockCountsTotal | coclust_mod_impute.py:25-36 | The block counts add up to n·d. |
| Blocks.BlockRepresentatives | coclust_mod_impute.py:42-43 | Each representative times its non-zero block count gives back the block sum. A zero count is read as 1, so the representative is the block sum itself. `ImputeWritesBlockMean` shows that the block of a missing cell never has a zero count. |
| Blocks.ImputeBlockRepresentative | coclust_mod_impute.py:39-45 | Only missing cells are rewritten. Each gets block sum over block count for its block, with a zero count read as 1. Every other cell is kept, so an empty missing list leaves X unchanged. |
| Blocks.ImputeWritesBlockMean | coclust_mod_impute.py:39-45 | The block of a missing cell is never empty, so the zero-count guard never fires on a written cell. The written value times the block's size equals the block's sum: it is the block mean. |
| Modularity.ComputeModularityMatrix | coclust_mod_impute.py:48-57 | Succeeds exactly when N ≠ 0, where N is the total of X. Then every row and every column of B = X − r·cᵀ/N sums to zero. |
| Modularity.TraceOfOneHotProduct | coclust_mod_impute.py:113-114 | trace(ZᵀM) for one-hot Z adds, row by row, the entry of M at the row's label. |
| Modularity.NumeratorIsSumOfRowMaxima | coclust_mod_impute.py:93-114 | With Z the argmax encoding of BW, trace(Zᵀ·BW) is the sum of the row maxima of BW. |
| Partitions.Max | coclust_mod_impute.py:94 | The maximum of a vector is attained and bounds every entry. |
| Partitions.Argmax | coclust_mod_impute.py:94 | `np.argmax`: an index of a maximal entry, with every earlier entry strictly smaller. Ties go to the first index. |
| Partitions.RowArgmax | coclust_mod_impute.py:103 | Every label lies in [0, k) and is the first index where its row attains the row maximum. |
| Partitions.OneHot | coclust_mod_impute.py:95 | Row i holds 1 exactly at column z[i] and 0 everywhere else. |
| Partitions.OneHotRowSums | coclust_mod_impute.py:95 | Every row of a one-hot encoding of valid labels sums to 1. |
| Partitions.ArgmaxOfOneHot | coclust_mod_impute.py:122-123 | The argmax of a one-hot encoding gives back the labels, so the reported labels are those of the last pass. |
| Partitions.ClusterSizes | coclust_mod_impute.py:36 | Column a of a one-hot encoding sums to the number of labels equal to a. |
| Partitions.CountsSumToLength | coclust_mod_impute.py:36 | For valid labels the cluster sizes add up to the number of labels. |
| Matrices.PositiveTotal | coclust_mod_impute.py:52 | For a non-negative matrix, the mass N is positive exactly when some entry is positive. |
| Blocks.ImputeKeepsPositive | coclust_mod_impute.py:39-45 | Imputing a non-negative matrix keeps it non-negative, because each written value is a block mean of non-negative values. A positive entry stays positive, because its own block then has a positive sum. |
| SingleRun.RowHalf | coclust_mod_impute.py:93-98 | Shapes only: an n×k score matrix, n valid row labels and an n×d matrix. Its behaviour is stated by `RowHalfSpec`. |
| SingleRun.RowHalfSpec | coclust_mod_impute.py:93-98 | The row scores are B·W. Each row label is the first index of its row's maximum. X is re-imputed with the new row labels and the old column labels. Only missing cells change, and non-negative data with a positive entry stays so. |
| SingleRun.ColumnHalf | coclust_mod_impute.py:102-110 | Shapes only: a d×k score matrix, d valid column labels and an n×d matrix. Its behaviour is stated by `ColumnHalfSpec`. |
| SingleRun.ColumnHalfSpec | coclust_mod_impute.py:102-110 | The column scores are Bᵀ·Z for the given B. Each column label is the first index of its score row's maximum. X is re-imputed with the given row labels and the new column labels. Only missing cells change, and non-negative data with a positive entry stays so. |
| SingleRun.Step | coclust_mod_impute.py:92-114 | Degeneracy is the only failure. A success leaves an n×d X and B and d valid column labels. Its full behaviour is stated by `StepSpec` and `StepSucceeds`. |
| SingleRun.StepSpec | coclust_mod_impute.py:92-114 | A pass fails exactly when the row-imputed X₁ or the column-imputed X has zero mass. A successful pass satisfies `StepFacts`: Z and X₁ come from the row half on X, B, W; B₁ is the modularity matrix of X₁; the new W and X come from the column half on X₁, B₁, Z; every label is the first argmax of its score row; B and N are the modularity matrix and mass of X; the score is trace(Zᵀ·BW), with BW taken before any imputation; the pass's modularity is that score over N. |
| SingleRun.StepFactsMeaning | coclust_mod_impute.py:92-114 | What `StepFacts` spells out: valid labels; BW = B·W and B₁ᵀZ built from the rebuilt B₁; each label the first argmax of its score row; X₁ and X the two block-mean imputations; N the total of X; only missing cells change; the score trace(Zᵀ·BW) equals the sum of the row maxima of BW. |
| SingleRun.StepSucceeds | coclust_mod_impute.py:92-111 | On non-negative data with a positive entry, neither rebuild meets a zero mass. The pass leaves X non-negative with a positive entry. |
| SingleRun.Loop | coclust_mod_impute.py:85-126 | Degeneracy is the only failure. What a successful run satisfies is stated by `LoopFacts`, and that non-negative data never fails by `LoopSucceeds`. |
| SingleRun.LoopFacts | coclust_mod_impute.py:85-126 | A successful loop made passes that each ran on the X, B and W the previous pass left, the first on the loop's inputs. Each pass but the last appended its modularity m_end/N to the trace. The loop continued after a pass exactly when the score moved by more than tol (the first pass against -inf) and the incremented count stayed below max_iter, and it stopped after the last pass. The iteration count is the number of passes. The labels, modularity and X are those of the last pass. |
| SingleRun.LoopSucceeds | coclust_mod_impute.py:85-120 | On non-negative data with a positive entry the loop never fails. |
| SingleRun.RunFactsBounds | coclust_mod_impute.py:115-126 | A run makes at least one pass and stays within max_iter unless it stops after a single pass. The trace has one entry fewer than the passes, and the labels are valid. |
| SingleRun.FitSingle | coclust_mod_impute.py:60-126 | If X has zero total the run fails, and degeneracy is its only failure. Otherwise the iteration count lies in [1, max(1, max_iter)], the trace has iteration count − 1 entries, labels are valid, and only missing cells change. |
| SingleRun.FitSingleFacts | coclust_mod_impute.py:72-126 | A successful run is the loop started on the modularity matrix of X, the initial column labels, the score -inf, an empty trace and count 0, so `LoopFacts` describes it. |
| SingleRun.FitSingleSucceeds | coclust_mod_impute.py:81-126 | A run on non-negative data with a positive total never fails. |
| Ascent.Exchange | coclust_mod_impute.py:93-114 | Reading B·W at each row's label z[i] and summing adds up the same cells of B as reading Bᵀ·Z at each column's label w[j]: the cells with z[i] = w[j]. |
| Ascent.AlternatingAscent | coclust_mod_impute.py:93-114 | On a fixed B, let W₁ be the column argmax of BᵀZ and Z₂ the row argmax of B·W₁. Then the score of Z against W₀ is at most the score of Z₂ against W₁. |
| Ascent.PassKeepsMatrix | coclust_mod_impute.py:98-111 | Without missing cells a pass leaves X, B and N as they were. Both halves therefore score on the same B, and the pass's score is the sum of BW read at the row labels. |
| Ascent.RunClimbs | coclust_mod_impute.py:85-126 | For a run without missing cells started on the modularity matrix of its X, each pass's m_end is at least the previous one's. With N > 0 the modularities it appends never decrease, and the last is at most the reported modularity. |
| Ascent.ScoresClimbWithoutMissing | coclust_mod_impute.py:85-126 | Without missing cells, every pass of `_fit_single` ends with an m_end at least the previous pass's. |
| Ascent.TraceNonDecreasingWithoutMissing | coclust_mod_impute.py:113-124 | Without missing cells and with N > 0, the trace `modularities` never decreases, and its last entry is at most the reported modularity. |
| CoclustModImpute.MissingCells | coclust_mod_impute.py:205 | Lists every NaN cell and only NaN cells, in row-major order, which also makes the cells distinct. |
| CoclustModImpute.FillValues | coclust_mod_impute.py:207-213 | 'zero' gives zeros. An array of matching length is used as is, and a single value is broadcast. Any other length is a shape mismatch. An unrecognised `initial_vals` fills nothing, so it fails as non-finite exactly when there is a missing cell. There are no other failures. |
| CoclustModImpute.Assign | coclust_mod_impute.py:208 | Cell `cells[t]` gets `vals[t]`, and every other cell is kept. |
| CoclustModImpute.Prefill | coclust_mod_impute.py:203-218 | Succeeds exactly when the fill values fit, and fails with their error otherwise. An unrecognised `initial_vals` succeeds exactly when no cell is NaN. On success each NaN cell gets its fill value and every observed cell keeps its value. |
| CoclustModImpute.NoMissingCells | coclust_mod_impute.py:205 | There are no missing cells exactly when every cell is observed. |
| CoclustModImpute.Fit | coclust_mod_impute.py:192-241 | A failed fill is the fit's error: a bad array is a shape mismatch, and an unrecognised `initial_vals` with a NaN cell is non-finite. After a good fill, fewer than k rows or columns is an invalid shape. A success keeps every observed input value in the reported matrix. |
| CoclustModImpute.Choose | coclust_mod_impute.py:236-241 | The new selection is either the prior or the run. Its modularity is at least the run's and at least the prior's. It keeps the prior exactly when the prior is not -inf and the run is not strictly greater, so a tie keeps the earlier run. `SelectFromSnoc` shows that selection over runs applies this choice in turn. |
| CoclustModImpute.RestartFold | coclust_mod_impute.py:229-241 | Failures are only the NaN abort. With no restarts the prior selection and X are returned. The reported matrix differs from the input only in missing cells. |
| CoclustModImpute.Runs | coclust_mod_impute.py:229-234 | One run per restart, each on a well-formed matrix. It fails only on the NaN abort. |
| CoclustModImpute.RestartFoldIsSelectAfterRuns | coclust_mod_impute.py:229-241 | Running and selecting as one fold is the same as running all restarts, each from the previous restart's matrix, and then selecting. The fit fails exactly when some restart is degenerate. The reported matrix is the last restart's. |
| CoclustModImpute.SelectScan | coclust_mod_impute.py:236-241 | After the first p runs from a fresh start, the selection holds the run at the first-index argmax of their modularities. |
| CoclustModImpute.FreshSelectionIsFirstMaximal | coclust_mod_impute.py:236-241 | From -inf, the selection is the run at the first-index argmax of the modularities, that is, the first run of maximal modularity (every run's modularity is at most its own, every earlier run's strictly lower). |
| CoclustModImpute.FreshFoldSelectsFirstMaximal | coclust_mod_impute.py:223-241 | For a fresh estimator, `fit` keeps the first restart of maximal modularity and reports the last restart's matrix. |
| CoclustModImpute.SelectionBoundsAllRuns | coclust_mod_impute.py:223-241 | With any prior, the selection is the prior or one of the runs. Its modularity is at least the prior's and at least every run's. |
| CoclustModImpute.SelectFromSnoc | coclust_mod_impute.py:236-241 | Selecting over one more run is applying the strict-greater choice to it after selecting over the others. |
| CoclustModImpute.RunsPrefix | coclust_mod_impute.py:229-234 | The runs of the first restarts do not depend on later restarts: a successful fit with one more restart has the same runs followed by one more. |
| CoclustModImpute.ExtraRestartNeverLowers | coclust_mod_impute.py:229-241 | One more restart never lowers the selected modularity, with None read as -inf. |
| CoclustModImpute.FitIsSelectionOverRestarts | coclust_mod_impute.py:192-241 | On a well-shaped input, `fit` succeeds exactly when every restart does. It then returns the strict-greater selection, starting from the prior modularity, and the last restart's matrix. |

## Left out

- The `'rand'` fill (lines 211-213) is left out because it draws random floats scaled by `np.nanmax`.
- `random_init` and the seeds are left out. `check_random_state` (line 201) and `randint` (line 227) are randomness, and `random_init` belongs to another package. Each restart takes its initial column labels as an input.
- An `init` given as a matrix that is not one-hot is not modelled. The initial W is always the one-hot encoding of the given labels.
- The joblib `Parallel` branch (lines 242-255) is left out. It is concurrency, and it cannot be reached because of `or True` on line 228.
- `check_array` (lines 215-218) is modelled as its finiteness test and its minimum-size test, `n >= k` and `d >= k`. Finiteness fails exactly when an unrecognised `initial_vals` leaves a NaN cell; the other fills write a real into every missing cell. Sparse inputs are not modelled.
- `impute_fn` is fixed to `_impute_block_representative`. The source accepts any callable.
- IEEE floating point (NaN and inf propagation, rounding) is not modelled: arithmetic is on `real`. Zero mass N is the one place the source divides by something that can be zero, and it is modelled as the failure `NumericalDegeneracy`.
- SingleRun.Step: its own `ensures` state only the error kind and the shapes. Its full behaviour is in the lemmas `StepSpec` and `StepSucceeds`. As `ensures` of the function it would unfold at every call of `Step` (in `Loop`, `FitSingle` and the restart fold) and exhaust the resource limit there.
- SingleRun.Step: a zero mass at either rebuild of B aborts the run. In the source a zero mass after the row step divides `row_sums @ col_sums` by 0.0 (line 53), which gives a non-finite B: NaN where r_i·c_j = 0 and ±inf elsewhere. The numerator of that pass still uses the earlier, finite BW, so the pass might end with a finite modularity and no error.
- SingleRun.Loop: its own `ensures` state only the error kind, for the same reason as `Step`. Its behaviour is in the lemmas `LoopFacts` and `LoopSucceeds`.
- Modularity.ComputeModularityMatrix: a zero total fails even when the source would give an infinite rather than a NaN modularity. That can only happen with mixed-sign data.
- The `BaseDiagonalCoclust` base class and the attribute bookkeeping (lines 177-190, 258-262) are not modelled. `fit` returns the selection and the matrix, and `prior` stands for the `modularity` attribute read on line 223.
- Ascent.TraceNonDecreasingWithoutMissing: the trace of modularities is proved non-decreasing only when no cell is missing and N > 0. With missing cells, each pass re-imputes X and so changes B and N, which breaks the exchange argument. No order is claimed there. With N < 0 the division by N reverses the order of the scores.
