# Diamond price prediction: the row cleaner `preprocess_df`

This project models the row cleaner of the diamond price pipeline,
`preprocess_df` in `src/data_preprocessing.py`, and proves properties of the model.
The cleaner takes a pandas DataFrame of raw diamond records and does these steps in order:

1. It drops the bookkeeping column `Unnamed: 0` in place.
2. It drops duplicate rows in place, keeping the first of each group of equal rows.
3. It drops, in place, the rows whose `x`, then `y`, then `z` equals 0.
4. It rebinds the local name to new frames holding only the rows inside strict bounds:
   50 < depth < 75, 45 < table < 80, x < 30, y < 30, 2 < z < 30.
   It returns the last of these frames.

A missing column raises `KeyError`, which is re-raised. Any other exception is logged and
swallowed, so the function returns `None`.

## How the model is built

- `sequences.dfy` (module `Sequences`) holds sequence facts:
  - `Distinct`: no element repeats.
  - `IsSubsequence`: deletion that keeps order.
  - `Without`: a list with one label deleted.
  - `KeepFirst`: the first occurrence of every element, in order.
  - `FirstIndex` and `InFirstOccurrenceOrder`: ordering by first occurrence.
- `frames.dfy` (module `Frames`) models the DataFrame operations the cleaner uses.
  - A cell is a `Value`: `Num(real)` or `Text(string)`.
  - A row is a map from column name to cell.
  - A `Table` is a column list plus a sequence of rows. `WellFormed` says the labels are unique and every row has exactly the frame's columns.
  - Each pandas operation is a pure function. `DropColumn`, `DropZeros` and `Select` can raise, so they return a `Result`. `DropDuplicates` cannot fail and returns a `Table`.
  - The class `DataFrame` has fields `columns` and `rows`. `Drop`, `DropDuplicatesInPlace` and `DropZeroRows` change those fields in place (`inplace=True`). `Filter` returns a fresh `DataFrame` and leaves the receiver alone (`df[mask]`).
- `data_preprocessing.dfy` (module `DataPreprocessing`) models `preprocess_df` itself.
  - `InPlaceSteps` gives steps 1-3: the state the caller's frame is left in, and the `KeyError` that stopped the steps, if any.
  - `FilterOutliers` gives step 4. `Handle` gives the two `except` clauses.
  - `Preprocess` gives the outcome: `Returned(frame)`, `Raised(KeyError(column))` or `ReturnedNone`.
  - The method `PreprocessDf` runs the same sequence of calls on a `DataFrame` object, through `CleanInPlace` (steps 1-3) and `SelectInBounds` (step 4). Its contract ties the object's new state to `InPlaceSteps` and its result to `Preprocess`.
  - The lemmas state the cleaner's guarantees about these functions.

The "other exception" path is modelled as the exception pandas raises in this code: a `TypeError`.
It comes from comparing a text cell with a number using `<` or `>` in a bound mask.
Only the rows still present at that step are compared.
Comparing text with 0 using `==` gives `False` and raises nothing.
So a text cell in `x` survives step 3, and the call fails (returns `None`) only at step 4.

Facts about the code that the model keeps:

- A missing column raises pandas' `KeyError`, which the function re-raises.
- Every other exception is swallowed, and the function returns `None`.
- Steps 1-3 change the caller's frame. Rows removed only by the bound filters stay in the caller's frame.
- Duplicate rows are compared after `Unnamed: 0` is gone. So two records that differ only in that column are duplicates.
- pandas' `drop_duplicates` returns an empty frame unchanged, and a frame with no columns is empty. So when `Unnamed: 0` was the only column, every row survives step 2, although all of them are now equal.
- Filtering keeps every copy of a passing row. Only `drop_duplicates` removes copies.

## Model

| member | source | states |
|---|---|---|
| `Sequences.Without` | src/data_preprocessing.py:30 | the column list after the drop has exactly the other labels; unique labels stay unique |
| `Sequences.WithoutIsSubsequence` | src/data_preprocessing.py:30 | the remaining labels keep their original order |
| `Sequences.KeepFirst` | src/data_preprocessing.py:34 | deduplicated rows contain no repeat and exactly the distinct input rows |
| `Sequences.KeepFirstIsSubsequence` | src/data_preprocessing.py:34 | deduplication keeps rows in their original relative order |
| `Sequences.KeepFirstInOrder` | src/data_preprocessing.py:34 | the kept rows appear in the order of their first occurrences (keep='first') |
| `Frames.Where` | src/data_preprocessing.py:38-48 | a row survives a filter exactly when it is an input row that passes the test, and every copy of a passing row survives (multiplicities kept) |
| `Frames.WhereIsSubsequence` | src/data_preprocessing.py:38-48 | filtering deletes rows without reordering or changing them |
| `Frames.DropColumn` | src/data_preprocessing.py:30 | KeyError naming the column exactly when it is absent; otherwise a well-formed frame without it, the other labels in their order, the same number of rows, each row keeping every other cell of its input row |
| `Frames.DropDuplicates` | src/data_preprocessing.py:34 | same columns and same set of rows, in their original relative order; a frame without columns is returned unchanged; otherwise no repeated row, and the kept rows follow the order of first occurrences (keep='first') |
| `Frames.DropZeros` | src/data_preprocessing.py:38-40 | KeyError exactly when the column is absent; otherwise the order-preserving selection of the rows whose cell is not the number 0, each such row with all its copies |
| `Frames.Select` | src/data_preprocessing.py:44-48 | KeyError when the column is absent, TypeError when a present row holds text there, otherwise the order-preserving selection of the rows strictly inside the bound, each with all its copies |
| `Frames.DataFrame.Drop` | src/data_preprocessing.py:30 | the in-place drop changes the object to the dropped frame, or leaves it unchanged and reports the KeyError |
| `Frames.DataFrame.DropDuplicatesInPlace` | src/data_preprocessing.py:34 | the object now holds the deduplicated frame, which is the frame itself when it has no columns |
| `Frames.DataFrame.DropZeroRows` | src/data_preprocessing.py:38-40 | the object loses its zero rows, or is unchanged and reports the KeyError |
| `Frames.DataFrame.Filter` | src/data_preprocessing.py:44-48 | mask selection yields a fresh object holding the selected frame; the receiver is not modified |
| `DataPreprocessing.FirstMissing` | src/data_preprocessing.py:30-48 | names the first column, in the order the cleaner indexes them, that the frame lacks, and is None exactly when none is missing |
| `DataPreprocessing.InPlaceSteps` | src/data_preprocessing.py:30-40 | the caller's frame after steps 1-3 stays well-formed, and what stops them can only be a KeyError; the rest is stated by `InPlaceStepsFacts` |
| `DataPreprocessing.FilterOutliers` | src/data_preprocessing.py:44-48 | a selected frame is well-formed with the same columns; its rows and errors are stated by `FilterOutliersFacts` |
| `DataPreprocessing.Handle` | src/data_preprocessing.py:51-55 | an exception never yields a frame; it is re-raised exactly when it is a KeyError, and re-raised as itself |
| `DataPreprocessing.Preprocess` | src/data_preprocessing.py:25-55 | a returned frame is well-formed and a raised exception is a KeyError; the outcomes are stated by the `Returned…`, `Raised…`, `Missing…` and `NoneOnly…` lemmas |
| `DataPreprocessing.CleanInPlace` | src/data_preprocessing.py:30-40 | the caller's object ends in the state of steps 1-3, and the KeyError that stopped them is reported |
| `DataPreprocessing.SelectInBounds` | src/data_preprocessing.py:44-48 | the five selections yield a fresh object holding the in-bounds frame, or the KeyError or TypeError of the first failing mask; the caller's object is not changed |
| `DataPreprocessing.PreprocessDf` | src/data_preprocessing.py:25-55 | the caller's frame ends in the state of the in-place steps; the result is a fresh frame, the re-raised KeyError or None, as the model of the function says |
| `DataPreprocessing.InPlaceStepsFacts` | src/data_preprocessing.py:30-40 | steps 1-3 stop with the KeyError of the first missing one of `Unnamed: 0`, x, y, z; without the index column nothing changes; otherwise the frame lacks that column and its rows are input rows without their index cell, in order; deduplicated ones when another column is left, all of them when none is; after all three drops, exactly those with nonzero dimensions |
| `DataPreprocessing.FilterOutliersFacts` | src/data_preprocessing.py:44-48 | step 4 keeps exactly the rows inside all bounds, in order and with all their copies; it raises KeyError only for an absent measured column and TypeError only for a text cell; it raises nothing when those columns are present and numeric |
| `DataPreprocessing.ReturnedFrameFacts` | src/data_preprocessing.py:25-50 | a returned frame comes from a completed in-place part and is the in-bounds part of the caller's frame |
| `DataPreprocessing.ReturnedRowsInsideBounds` | src/data_preprocessing.py:44-48 | every returned row has numeric cells with 50 < depth < 75, 45 < table < 80, x < 30, y < 30, 2 < z < 30 |
| `DataPreprocessing.ReturnedRowsHaveNonZeroDimensions` | src/data_preprocessing.py:38-40 | no returned row has x, y or z equal to 0 |
| `DataPreprocessing.ReturnedRowsAreInputRowsInOrder` | src/data_preprocessing.py:30-48 | the returned rows are a subsequence of the input rows without their index cell; no other cell is altered |
| `DataPreprocessing.ReturnedRowsKeepFirstOccurrences` | src/data_preprocessing.py:30-34 | no two returned rows are equal, and they follow the order of first occurrences in the input |
| `DataPreprocessing.ReturnedRowsComplete` | src/data_preprocessing.py:34-48 | a row is returned if and only if it is an input row without its index cell, has nonzero x, y, z and is inside every bound |
| `DataPreprocessing.ReturnedColumns` | src/data_preprocessing.py:30 | the returned columns are the input columns without `Unnamed: 0`, in their original order |
| `DataPreprocessing.RaisedErrorNamesMissingColumn` | src/data_preprocessing.py:51-53 | an exception that reaches the caller is a KeyError naming the first required column the frame lacks |
| `DataPreprocessing.MissingColumnRaisesKeyError` | src/data_preprocessing.py:30-53 | a missing required column is re-raised as a KeyError naming it; a missing table is preempted only by text in depth |
| `DataPreprocessing.MissingColumnNeverReturns` | src/data_preprocessing.py:30-53 | when any column the cleaner indexes is missing, no frame is returned |
| `DataPreprocessing.MissingTableOutcome` | src/data_preprocessing.py:44-55 | with only `table` missing, the call raises KeyError('table'), or returns None exactly when a text depth cell survived steps 1-3 |
| `DataPreprocessing.IndexOnlyFrame` | src/data_preprocessing.py:30-38 | when `Unnamed: 0` is the only column, the caller's frame keeps every row, each without cells, and the call raises KeyError('x') |
| `DataPreprocessing.NoneOnlyAfterTextCell` | src/data_preprocessing.py:54-55 | None comes back only when some row holds text in a measured column and at most `table` is missing |
| `DataPreprocessing.NumericFrameIsReturned` | src/data_preprocessing.py:25-50 | with every required column present and numeric measured cells, a frame is returned |
| `DataPreprocessing.CallerFrameKeepsOutliers` | src/data_preprocessing.py:30-48 | the caller's frame loses the index column and zero-dimension rows, and its duplicates unless no other column is left; a row left in it is returned exactly when it is inside the bounds, so outliers remain in it |
| `DataPreprocessing.DiamondConditions` | src/data_preprocessing.py:38-48 | for the sample record: nonzero dimensions iff x is not 0; inside bounds iff 50 < depth < 75 and x < 30 |
| `DataPreprocessing.SampleDiamonds` | src/data_preprocessing.py:30-48 | whenever a frame is returned for a table holding the sample diamond and three copies, the sample and its depth-60 copy are in it; the depth-80 copy is not but stays in the caller's frame; the x = 0 copy is gone from both |
| `DataPreprocessing.SampleDiamondsReturned` | src/data_preprocessing.py:30-50 | for such a table with every required column present and numbers in the measured columns, a frame is returned, with the sample and its depth-60 copy and without the depth-80 and x = 0 copies; the depth-80 copy stays in the caller's frame |

## Left out

- Logging: the debug and error messages the function writes are I/O. The model keeps only whether an exception is raised, swallowed or returned.
- `main()` (src/data_preprocessing.py:57-77): reading and writing CSV files, and its own exception handlers, are I/O.
- `src/feature_engineering.py`, `src/model_building.py`, `src/model_evaluation.py` and `Streamlit-app/app.py` are not part of this model. They are calls into sklearn, xgboost, pickle, dvclive and Streamlit, with no logic of their own to state.
- pandas index labels: dropping "the index of the rows where x == 0" is modelled as filtering rows, which is right when labels are unique (the RangeIndex of `read_csv`).
- NaN cells, duplicate column labels, and cell types other than numbers and text are not modelled. Numbers are exact reals, so floating-point rounding plays no part.
- Exceptions other than the `TypeError` of comparing text with a number (out of memory, unhashable cells in `drop_duplicates`) are not modelled. They would take the same swallowed path.
- Whether a frame returned by `df[mask]` shares memory with its source is not modelled. Each selection is a fresh object, which is what the caller can observe.
