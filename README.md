# DataManipulator: spike segmentation and counting

This project models the `DataManipulator` class of src/datamanipulator.py in
Dafny and proves what it computes. The class takes a frame of recorded brain
cells. Each cell is a pair of columns, "relative firing time" and "IF", that
hold the cell's rows in order. A NaN IF separates one repetition from the
next.

The class does the following:

- It splits every cell into numbered spike buckets:
  - `create_cell_dict` builds one bucket map per cell.
  - `all_in_one_dict_creating` builds one map shared by all cells.
  - In both scans, a counter starts at 1 once, before the loop over cells.
  - A NaN IF resets the counter to 1, and the row is dropped.
  - Any other row is appended to the bucket numbered by the counter, and the counter then increases by one.
- `create_frame` returns one bucket's rows, sorted in descending order by time or by IF.
- `measurements` cuts each cell's time column where the next time is a number and is not greater. It then counts the times left in each piece's bucket:
  - A rising row with a valid IF empties the bucket first.
  - The last row, and rows followed by a NaN time, are never recorded.
- `create_spike_frame` counts the entries of each spike bucket of every cell.

The model is organised in modules:

- `Values`: values (`NaN | Num(r)`, with Python's NaN comparisons), cells, buckets, and helper facts about label sets.
- `Spikes`: both spike scans as folds over row and cell prefixes, and the properties proved about them.
- `Measures`: the measurement scan and its properties.
- `Frames`: the rows of a bucket, and the descending sort with NaN last.
- `Tables`: the padded count tables.
- `Manipulator`: the class `DataManipulator`, whose fields are the source's fields. Its loops are proved equal to the fold functions.
- `CounterCarry`: the finding below.

Labels are integers: label `k` stands for the key `"k.spike"` or `"k.measure"`.

Two behaviours of the code that the model reproduces as written:

- **Spike counter.** Both scans set the counter to 1 once, before the loop over cells (src/datamanipulator.py:23 and :38). So the counter carries over from one cell to the next when a cell does not end on a NaN IF.
- **Measurement cuts.** When the next time is a number, `measurements` cuts wherever time does not strictly increase (src/datamanipulator.py:105 and :117). That includes two equal consecutive times, and a row whose own time is NaN, because Python's `<` with NaN is false. A row followed by a NaN time is skipped, not cut (:103-104).

## Model

| member | source | states |
|---|---|---|
| Manipulator.DataManipulator.constructor | src/datamanipulator.py:10-20 | Builds an object from a frame with distinct cell names. Afterwards, `dict` is the per-cell scan, `all_in_one_dict` is the merged scan, `names` lists the cell names in column order, and every bucket is paired. |
| Manipulator.DataManipulator.CreateDict | src/datamanipulator.py:54-60 | Runs the merged scan from the current `all_in_one_dict`, then the per-cell scan from the current `dict`. `names` is left unchanged. |
| Manipulator.DataManipulator.AllInOneDictCreating | src/datamanipulator.py:22-35 | Returns the passed-in map extended by the merged fold. The counter is set to 1 once and carries across cells. |
| Manipulator.DataManipulator.CreateCellDict | src/datamanipulator.py:37-52 | Gives each cell a new map and fills it by the fold, with the counter carried over from the previous cell. |
| Manipulator.NamesFromColumns | src/datamanipulator.py:20 | Taking every other entry of the first column level yields exactly the cell names, in column order. |
| Manipulator.EveryOther | src/datamanipulator.py:20 | `s[::2]` has `(len(s)+1)/2` entries, and entry i is `s[2i]`. |
| Manipulator.ColumnLevel0 | src/datamanipulator.py:24 | The first column level names each cell twice: positions 2i and 2i+1 hold cell i's name. |
| Manipulator.DictsPaired | src/datamanipulator.py:22-52 | In the merged map and in every per-cell map, each bucket has as many IF entries as time entries. So `from_dict` always receives columns of equal length. |
| Manipulator.ConcatLabelPaired | src/datamanipulator.py:29-33 | Joining paired per-cell buckets gives a paired bucket. |
| Manipulator.DataManipulator.CreateFrame | src/datamanipulator.py:62-88 | Raises KeyError exactly when the cell or the label is absent from the chosen map. Otherwise it returns a permutation of the bucket's (time, IF) rows, in non-increasing order of IF when `y` and of time otherwise, with NaN keys last. |
| Manipulator.DataManipulator.Measurements | src/datamanipulator.py:90-137 | Every cell name is in the measurement dict. The table is the padded table of label counts over the per-cell measurement maps, and the count loop never raises. |
| Manipulator.MeasureTableDefined | src/datamanipulator.py:130-135 | Every cell name is in `measure_dict` with labels exactly 1..len(map), so the count loops of `measurements` complete on every frame with distinct names. |
| Manipulator.ScanMeasures | src/datamanipulator.py:96-128 | The row loop of `measurements` returns exactly the cell's measurement map. |
| Manipulator.CountLabels | src/datamanipulator.py:145-149 | The `range(1, len(m)+1)` loop completes if and only if every label 1..len(m) is present. When it completes, it returns the time-list length of each label. |
| Manipulator.CountTable | src/datamanipulator.py:144-150 | The nested count loops give KeyError when some cell lacks a label in 1..len(map). Otherwise they give the padded table of counts. |
| Manipulator.DataManipulator.CreateSpikeFrame | src/datamanipulator.py:139-150 | Returns the count table of `dict` over `names`, or KeyError when some cell's labels are not 1..len(map). |
| Spikes.LastNaN | src/datamanipulator.py:26-27 | Finds the last NaN IF before row j: a NaN at that position, or -1 when there is none, and valid IFs after it. |
| Spikes.Select | src/datamanipulator.py:29-33 | The rows that the label rule puts under label k, in source order. Both lists have equal length, and every IF is valid. |
| Spikes.LabelRule | src/datamanipulator.py:23-34 | Label rule. After row j, the counter is `c0 + j` if no NaN row has occurred, and `j - last NaN` otherwise. Bucket k holds exactly the rows with label k, in source order. A label is present if and only if such a row exists. |
| Spikes.CellBucketsPaired | src/datamanipulator.py:41-51 | Every bucket of a cell's map is non-empty and paired, and holds only valid IFs. |
| Spikes.CarryOver | src/datamanipulator.py:38-51 | A cell without NaN IF hands the next cell the counter `c0 + rows`. A cell whose last IF is NaN hands it 1. |
| Spikes.ScanIntoMap | src/datamanipulator.py:30-33 | Scanning into a non-empty map gives the same result as scanning alone and then joining the two maps label by label. |
| Spikes.CellScanFacts | src/datamanipulator.py:37-52 | After n cells, the per-cell dict has exactly those cells' names. Each name holds the map that its cell's scan builds from the carried counter. |
| Spikes.MergedFacts | src/datamanipulator.py:22-35 | After n cells, the merged map under label k is the column-order join of the per-cell buckets under k. A label is present if and only if some cell has it. |
| Spikes.MergedIsConcatenation | src/datamanipulator.py:22-52 | Merged map is the concatenation. For every label k, `all_in_one_dict[k]` is the column-order join of `dict[name][k]` over the cells, and k is present exactly when some cell has it. |
| Spikes.ScanSize | src/datamanipulator.py:25-34 | A scan adds exactly one time entry per valid-IF row, keeps labels within bounds, and keeps the counter within `[1, start + rows]`. |
| Spikes.EntryBound | src/datamanipulator.py:23-34 | The counter on entering any cell is between 1 and 1 + the number of rows before it. |
| Spikes.CellRowsConserved | src/datamanipulator.py:41-51 | Rows are conserved per cell. The bucket lengths of `dict[name]` sum to the cell's number of non-NaN IF entries. |
| Spikes.MergedRowsConserved | src/datamanipulator.py:24-34 | Rows are conserved in the merged map. Its bucket lengths sum to the number of non-NaN IF entries over all cells. |
| Spikes.ScanKeepsDense | src/datamanipulator.py:26-34 | A scan keeps a map's labels exactly 1..len(map), provided the counter is at most len(map)+1. |
| Spikes.MergedDense | src/datamanipulator.py:22-35 | The merged map's labels are exactly 1..len(map). |
| Spikes.CellDenseFromOne | src/datamanipulator.py:38-51 | A per-cell map is dense when the counter is 1 on entering the cell. |
| Spikes.CellNotDenseAfterCarry | src/datamanipulator.py:38-51 | A per-cell map is not dense when the cell is entered with a counter above 1, has rows, and has no NaN IF: label 1 is missing, so the `range(1, len+1)` loop fails. |
| Spikes.NoResetLabels | src/datamanipulator.py:42-51 | In a cell without NaN IF, no row gets a label below the entering counter. |
| Measures.ExaminedCount | src/datamanipulator.py:100-104 | The last row of a non-empty cell is never examined, and there are at least as many examined rows as falling rows. |
| Measures.MeasureLabels | src/datamanipulator.py:98-128 | The counter starts at 1 per cell and moves only on a falling row. The labels in use run from 1 up to the counter, and every label below the counter is present. |
| Measures.MeasureLabelsDense | src/datamanipulator.py:98-135 | A cell's measurement labels are exactly 1..M. M is the number of falling rows, plus one when the bucket under the final counter exists. So the count loop never misses a key. |
| Measures.MeasureBucketShape | src/datamanipulator.py:105-128 | Each bucket has at least one time and at most as many IFs as times, and all its IFs are valid. A closed bucket has at most 2 IFs, and the open bucket has at most 1. This holds because a valid rising row replaces the bucket. |
| Measures.MeasureIgnoresUnexamined | src/datamanipulator.py:100-104 | The last row, and rows followed by a NaN time, never affect the result: cells that differ only in those IFs give the same state. |
| Measures.MeasureSizeBound | src/datamanipulator.py:99-128 | The buckets hold at most one time entry per examined row. |
| Measures.MeasureDropsLastRow | src/datamanipulator.py:100-101 | Labels stay within the row count. The buckets hold fewer time entries than the cell has rows. |
| Measures.MeasureDictsNames | src/datamanipulator.py:95-97 | `measure_dict` holds no name other than the cells' names. |
| Measures.MeasureDictsValues | src/datamanipulator.py:95-97 | With distinct names, every cell's name is in `measure_dict` and holds the measurement map of that cell alone. |
| Frames.BucketRows | src/datamanipulator.py:73 | `from_dict` of a paired bucket gives one row per index, pairing time j with IF j. |
| Frames.Insert | src/datamanipulator.py:74 | Inserting into a descending sequence keeps it descending (NaN last) and adds exactly that row to the multiset. |
| Frames.SortDesc | src/datamanipulator.py:74 | `sort_values(ascending=False)` returns a descending sequence with NaN last that is a permutation of its input. |
| Tables.Pad | src/datamanipulator.py:137 | `pd.DataFrame(n_dict).transpose().fillna(0)`, also used at :150: one row per name of the nested dict, the same columns in every row (the union of all labels), each present count kept, and 0 wherever a row lacks a label. |
| Tables.CountsOfDense | src/datamanipulator.py:147-149 | For a dense map, the count row has exactly the map's labels, and each label's count is its time-list length. |
| Tables.PaddedCounts | src/datamanipulator.py:137 | The padded table has one row per name and the same columns in every row. A label the cell has shows its bucket length, and every other column shows 0. |
| Tables.CountTableEntries | src/datamanipulator.py:144-150 | Count tables. When `create_spike_frame` succeeds, each entry is the time-list length of that cell's bucket, or 0 for a label only other cells have. |
| CounterCarry.CarriedCounterBreaksSpikeFrame | src/datamanipulator.py:38-51 | As written: if the first two cells have rows and no NaN IF, the second cell's map lacks label 1, and `create_spike_frame` raises KeyError. |
| CounterCarry.TwoFullCells | src/datamanipulator.py:147-149 | As written: for cells A and B with one valid row each, `dict["B"]` has only label 2, and the spike table raises KeyError. The merged map also gets a label 2, which only B's row can fill, since A has a single row under label 1. |
| CounterCarry.ResetCellDictDense | src/datamanipulator.py:37-52 | Corrected: with the counter reset per cell, every name is present and every cell's labels are exactly 1..len(map). |
| CounterCarry.ResetSpikeFrameSucceeds | src/datamanipulator.py:139-150 | Corrected: with the counter reset per cell, the spike table succeeds on every frame. |
| CounterCarry.ResetAgreesAfterNaN | src/datamanipulator.py:37-52 | When every cell ends with a NaN IF, the source's per-cell scan equals the corrected one, and the counter is 1 after each cell. |

## Left out

- pandas is not modelled.
  - `DataFrame` construction, `transpose` and `fillna` become maps: a table maps each cell name to a map from labels to counts.
  - Column order is not modelled, and neither are the float dtype of the padded table and pandas' index types.
- The string keys `"k.spike"` and `"k.measure"` are integers here. A caller's label string that is not of that form raises KeyError in the source. In the model, an absent integer label does.
- The `gbz_dict` argument is updated in place and returned in the source. Here it is passed and returned as a value. The source passes the object's own field and the model assigns the result back to it, so the state after `__create_dict` is the same. Aliasing of that dict by other holders is not modelled.
- Manipulator.DataManipulator.constructor: requires distinct cell names. With a duplicated name, `data[name]` selects several columns at once, and pandas behaviour is outside the model.
- Manipulator.DataManipulator.CreateFrame: states sortedness and permutation only. The order of rows with equal keys is not fixed, because the default sort is not stable.
- Values hold reals and NaN, not IEEE doubles. Infinities and rounding are not modelled. The code only compares and stores values, so no arithmetic is lost.
- datamanipulator.py validates no input (odd column counts, cells without rows); neither does the model.
- Not part of this model:
  - src/lm_fit.py: least-squares fitting through an external library.
  - src/evaluate.py: floating-point differences against fit outputs.
  - src/plot.py: plotting.
  - src/downloader.py: network download and file caching.

## Findings

| source | as written | input that shows it | evidently intended | confidence | as-written member | corrected member |
|---|---|---|---|---|---|---|
| src/datamanipulator.py:38 | The spike counter of `create_cell_dict` is set once, before the loop over cells. So a cell that ends on a valid IF hands a counter above 1 to the next cell. When the next cell's first IF is valid, that cell's labels start above 1, and `create_spike_frame` reads `dict[name]["1.spike"]` and raises KeyError. | Two cells "A" and "B" with one row (0.0, 1.0) each: `dict["B"]` holds only `"2.spike"`. | A counter that restarts at 1 for every cell, so each cell's labels are 1..len(map) and the spike table is always defined | medium, not executed | CounterCarry.CarriedCounterBreaksSpikeFrame | CounterCarry.ResetSpikeFrameSucceeds |

The intended reset follows from the source itself. The `__init__` docstring
(src/datamanipulator.py:13-14) nests spike numbers under each cell name.
`create_spike_frame` (:147) reads labels 1..len(map) for every cell, which
presumes that each cell's labels start at 1.

`all_in_one_dict_creating` carries the same counter (:23). So in the merged
map, the first train of a cell that follows a cell ending on a valid IF is also
filed under labels c0, c0+1, ... instead of 1, 2, ..., and trains are
misaligned across cells in the same way. No KeyError follows there, because the
merged map's labels stay 1..len(map) (`Spikes.MergedDense`).

`DataManipulator` keeps the source's carried counter in both scans, because it
models the source as written. `CounterCarry.ResetCellDict` is the corrected
per-cell dictionary. `CounterCarry.ResetAgreesAfterNaN` shows the two differ
only when a cell ends on a valid IF. In a frame whose shorter cells are padded
with NaN, that happens only after a cell of full length.
