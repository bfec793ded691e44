# neko_utils in Dafny

A model of the two pure transformations at the heart of `neko_utils`, with
proofs about them.

**Statistics conversion (`csv_to_xr`).** A Neko statistics table becomes one
time × height grid per statistic. The model covers each step:

- choosing the basic (11 names) or the extended (44 names) registry;
- labelling the columns by position;
- averaging every row that shares a (time, height) pair;
- pivoting each statistic onto the sorted, distinct times and heights, where a pair absent from the input leaves a missing cell;
- removing the mean products from the higher-order moments, one name at a time, as the source's loop does.

Missing cells are `None` and stay missing through the subtraction and the
products, as NaN does. The loop's lookups can fail, in the order the source
performs them: first the statistic, then its letters. A lookup `ds[key]` finds
the data variables and also the two coordinates, `time` and the height
label. The model therefore runs the loop on a view of the table to which
both coordinates are added as grids (`CsvTools.WithCoordinates`), and the
finished dataset keeps only the statistics.

**Per-element extraction (`neko_ds_tools`).**

- `meshgrid_to_dim` rounds every position to 8 decimals (exactly, ties to even) and returns the distinct values in ascending order.
- `get_variables` builds:
  - the coordinate and mesh entries from the reference element;
  - velocity from the field element;
  - `pressure` and `temperature` when those arrays are not empty;
  - one `sNN` entry per scalar field.
- `nek_dataset`:
  - checks that the field file loaded, and does not check the reference file;
  - pairs the elements by index;
  - hands the per-element datasets to an opaque merge;
  - attaches the field file's time stamp as the coordinate `time`;
  - drops variables, `time` included, only when the drop list is not empty.

Modules:

| module | content |
|---|---|
| `Wrappers` | `Option` and `Result` |
| `Lookups` | the first name a dataset lacks, shared by the correction loop and `drop_vars` |
| `Unique` | strictly increasing sequences; `SortedDistinct` (`np.unique`, pandas' pivot axes) |
| `Registry` | the two registries and their selection |
| `Aggregation` | positional labelling, group-by-mean and pivot |
| `Moments` | the correction loop, its simultaneous reference and per-cell arithmetic |
| `CsvTools` | `csv_to_xr` end to end |
| `Rounding` | `np.round(·, 8)` on exact reals |
| `ScalarNames` | `"s{:02d}".format(i)` and its parse |
| `NekStore` | meshes, `meshgrid_to_dim`, `get_variables` |
| `NekDataset` | `nek_dataset` control flow |

The correction loop is modelled with a guard:

- `AsWritten` is the source's test: length above 1 and no `d`.
- `Intended` also skips the `e_ij` names, as the comment on the loop claims.

Everything is proved for both guards. Where they differ, the model states which one it is about (see Findings).

## Model

| member | source | states |
|---|---|---|
| Registry.Select | neko_utils/csv_tools.py:22-32 | the basic registry exactly when `basic` is set or the table has 11 data columns; the extended registry otherwise |
| Registry.ExtendedDistinct | neko_utils/csv_tools.py:27-32 | the 44 extended names are pairwise distinct, so labelling by name loses no statistic |
| Registry.NoDissipationLetters | neko_utils/csv_tools.py:27-32 | no extended statistic is named `e`, `1`, `2` or `3`, the letters the `e_ij` lookups read |
| Registry.NoTimeName | neko_utils/csv_tools.py:23-34 | no statistic of either registry is named `time`, the label of the first column |
| CsvTools.ColumnNames | neko_utils/csv_tools.py:34 | `col_names`: `time`, the height label, then the registry names in order |
| Aggregation.Label | neko_utils/csv_tools.py:34-35 | positional labelling: the keys are exactly the labels, and a label that does not repeat holds the value at its own position |
| Aggregation.Bind | neko_utils/csv_tools.py:34-35 | one record per row: its time is column 0, its height column 1, and its v-th statistic column v + 2 |
| CsvTools.LabelledRow | neko_utils/csv_tools.py:34-35 | with distinct labels, the row labelled by name holds under `time`, the height label and each statistic name what the positional record holds |
| Aggregation.Group | neko_utils/csv_tools.py:36 | a group holds exactly the rows with that (time, height) pair, each as often as it occurs in the table; it is non-empty iff the pair occurs |
| Aggregation.Sum | neko_utils/csv_tools.py:36 | the sum one statistic takes over a group; `SumOfConstant`, `SumAtLeast` and `SumAtMost` state its properties |
| Aggregation.Mean | neko_utils/csv_tools.py:36 | pandas' `.mean()` of one statistic over a non-empty group: the sum divided by the group's size; `MeanOfConstant` and `MeanBetween` state its properties |
| Aggregation.MeanOfConstant | neko_utils/csv_tools.py:36 | rows that agree on a statistic average to that value |
| Aggregation.MeanBetween | neko_utils/csv_tools.py:36 | a group mean lies between the smallest and largest value averaged |
| Aggregation.GroupMeans | neko_utils/csv_tools.py:36 | one entry per pair present in the table; its v-th value is the mean of statistic v over that pair's (non-empty) group |
| Aggregation.Pivot | neko_utils/csv_tools.py:38-46 | every statistic is a grid on the same axes; the axes are strictly ascending and hold exactly the times and heights of the table |
| Aggregation.PivotCell | neko_utils/csv_tools.py:38-46 | a cell is the mean over exactly the rows with its pair, or missing when no row has it |
| Aggregation.PivotCellByName | neko_utils/csv_tools.py:38-46 | with distinct names, the cell of a statistic is that statistic's group mean, or missing |
| Aggregation.PivotCellsFrom | neko_utils/csv_tools.py:38-46 | at one cell, every statistic holds its group mean when the pair occurs and is missing otherwise |
| Aggregation.PivotKeepsEveryPair | neko_utils/csv_tools.py:38-46 | every pair present in the table is a cell of the grid |
| Unique.SortedDistinct | neko_utils/csv_tools.py:40 | strictly ascending, holding exactly the input's values |
| Unique.StrictlyIncreasingUnique | neko_utils/csv_tools.py:40 | a strictly ascending sequence is determined by its set of values |
| Unique.SortedDistinctIdempotent | neko_utils/csv_tools.py:40 | taking the distinct sorted values twice is taking them once |
| Moments.IsCorrected | neko_utils/csv_tools.py:49-55 | the loop's guard: longer than one character, no `d`, and one of the three lengths the loop handles (a longer name falls through every branch); `Intended` also skips names starting with `e` |
| Moments.Reads | neko_utils/csv_tools.py:50-55 | the keys one correction looks up, in evaluation order: the statistic itself, then each letter; for four letters only the first |
| Lookups.FirstMissing | neko_utils/csv_tools.py:50-55 | no lookup fails iff all are present; otherwise the first absent lookup in order, every earlier one being present |
| Moments.Combine | neko_utils/csv_tools.py:51-55 | element-wise arithmetic keeps the grid's shape |
| Moments.CombineCell | neko_utils/csv_tools.py:51-55 | two present operands give the operation's result |
| Moments.CombineMissing | neko_utils/csv_tools.py:51-55 | a missing operand gives a missing cell, as NaN propagates |
| Moments.Correction | neko_utils/csv_tools.py:50-55 | the product of the letters' means, on the table's grid; its cells are the products `CorrectionCell2`-`4` state |
| Moments.CorrectedGrid | neko_utils/csv_tools.py:50-55 | the corrected statistic, on the table's grid; its cells are what `CorrectedCell` states |
| Moments.CorrectOne | neko_utils/csv_tools.py:49-55 | one step succeeds iff every lookup it makes is present, and otherwise fails with an absent lookup; it keeps the axes and the keys and changes no other statistic; the name itself becomes its corrected grid when the guard corrects it and stays as it was otherwise |
| Moments.CorrectAll | neko_utils/csv_tools.py:48-55 | the loop succeeds iff every name's lookups resolve; it keeps the axes and keys; only names the guard corrects change |
| Moments.CorrectAllFirstFailure | neko_utils/csv_tools.py:48-55 | the loop fails at the first unresolvable name, with that name's first absent lookup |
| Moments.SequentialIsSimultaneous | neko_utils/csv_tools.py:48-55 | for distinct names the order of the loop does not matter: it equals correcting every name against the table as pivoted |
| Moments.CorrectedGridFrame | neko_utils/csv_tools.py:50-55 | a correction depends only on the grids it reads |
| Moments.CorrectionCell2 | neko_utils/csv_tools.py:50-51 | a length-2 correction cell is x·y |
| Moments.CorrectionCell3 | neko_utils/csv_tools.py:52-53 | a length-3 correction cell is x·y·z |
| Moments.CorrectionCell4 | neko_utils/csv_tools.py:54-55 | a length-4 correction cell is x⁴, the product of its letters when they repeat |
| Moments.CorrectedCell | neko_utils/csv_tools.py:50-55 | a corrected cell is the raw mean minus the product of its letters' means |
| Moments.MissingCellStaysMissing | neko_utils/csv_tools.py:50-55 | a missing raw cell stays missing after correction |
| Moments.SimultaneousCellFrom | neko_utils/csv_tools.py:48-55 | each corrected cell holds the central statistic of the cell's means, or is missing |
| CsvTools.CsvToXr | neko_utils/csv_tools.py:21-57 | a length mismatch exactly when the width is not registry + 2; on success, the statistics are the registry and the axes are the sorted distinct times and heights |
| CsvTools.CsvOutcome | neko_utils/csv_tools.py:22-55 | success iff the height label is free and either there are 13 columns, or there are 46 with the extended registry requested and the `e_ij` names skipped |
| CsvTools.CsvSuccessIff | neko_utils/csv_tools.py:34-55 | success iff the labels fit and every name's lookups resolve among the pivot's statistics and the coordinates `time` and the height label |
| CsvTools.WithCoordinates | neko_utils/csv_tools.py:42-46 | the names `ds[key]` finds: the statistics, unchanged, plus `time` and the height label on the same axes |
| CsvTools.Finish | neko_utils/csv_tools.py:42-57 | the dataset's data variables are the loop's result minus the two coordinates; a failed lookup becomes an unknown-variable error naming that key |
| CsvTools.Convert | neko_utils/csv_tools.py:42-57 | the loop over the dataset succeeds iff every name resolves among the statistics and coordinates; it fails only with an unknown variable, and on success keeps the axes, the height label and the statistics |
| CsvTools.CorrectAllWithCoordinates | neko_utils/csv_tools.py:48-55 | when every lookup is a statistic, the loop with the coordinates visible gives the loop's result with the coordinates added |
| CsvTools.ConvertResolved | neko_utils/csv_tools.py:42-57 | when every lookup is a statistic, the dataset holds exactly the loop's result over the statistics |
| CsvTools.SuccessResolvesStatistics | neko_utils/csv_tools.py:22-55 | on success the labels fit, the height label is free, and every name resolves among the statistics alone |
| CsvTools.QuadsRepeated | neko_utils/csv_tools.py:29-30 | every four-letter name repeats one letter, so `x ** 4` equals its letter product |
| CsvTools.BasicResolvable | neko_utils/csv_tools.py:24 | every basic letter lookup is a basic variable |
| CsvTools.PressureStrainNotCorrected | neko_utils/csv_tools.py:30-31 | under either guard no name containing `d` is corrected, and the nine pressure-strain names `pdudx` ... `pdwdz` of lines 30-31 all contain `d` |
| CsvTools.DissipationSkipped | neko_utils/csv_tools.py:48-49 | with the `e_ij` names skipped, all six resolve whatever the keys |
| CsvTools.DissipationName | neko_utils/csv_tools.py:49-53 | a three-letter name starting with `e` is unresolvable as written when `e` or its second letter is absent |
| CsvTools.E11Lookups | neko_utils/csv_tools.py:31-53 | with the extended statistics and both coordinates as keys, the first absent lookup of `e11` is `e`, or `1` when the height label is `e` |
| CsvTools.DissipationLookups | neko_utils/csv_tools.py:31-53 | the first absent lookup of `e11` is `e` (`1` when the height label is `e`); all six `e_ij` names are unresolvable as written |
| CsvTools.ExtendedPrefixResolvable | neko_utils/csv_tools.py:28-31 | the source's loop gets through the first 38 extended names; the 39th is `e11` |
| CsvTools.ExtendedFailsAsWritten | neko_utils/csv_tools.py:48-53 | an otherwise valid extended table fails with a missing `e`, or a missing `1` when the height label is `e` |
| CsvTools.ExtendedSucceedsIntended | neko_utils/csv_tools.py:48-55 | the same table converts when the `e_ij` names are skipped |
| CsvTools.BasicGuardsAgree | neko_utils/csv_tools.py:48-55 | on a basic table both guards give the same dataset |
| CsvTools.CsvToXrGuardsAgree | neko_utils/csv_tools.py:48-55 | two guards that decide alike on every registry name give the same result |
| CsvTools.CsvToXrCells | neko_utils/csv_tools.py:36-55 | each converted cell is the central statistic of its group means, or missing when no row has the pair |
| Rounding.Round8 | neko_utils/neko_ds_tools.py:25 | `np.round(·, 8)` on one value: scale by 10⁸, round half to even, scale back; its properties are the four rows below |
| Rounding.RoundHalfEven | neko_utils/neko_ds_tools.py:25 | within one half of the input; even on a tie |
| Rounding.Round8Nearest | neko_utils/neko_ds_tools.py:25 | the rounded value has 8 decimals and is within half a step of the input |
| Rounding.Round8OfOnGrid | neko_utils/neko_ds_tools.py:25 | a value with 8 decimals is unchanged |
| Rounding.Round8Idempotent | neko_utils/neko_ds_tools.py:25 | rounding twice is rounding once |
| Rounding.Round8Monotone | neko_utils/neko_ds_tools.py:25 | rounding never reverses an order |
| NekStore.Flatten3 | neko_utils/neko_ds_tools.py:25 | the flattened mesh holds exactly the mesh's values |
| NekStore.MeshgridToDim | neko_utils/neko_ds_tools.py:21-26 | strictly ascending; contains every rounded position and only rounded positions |
| NekStore.MeshgridToDimOfCover | neko_utils/neko_ds_tools.py:21-26 | a mesh whose values are exactly those of a strictly increasing 8-decimal vector gives back that vector |
| NekStore.MeshgridToDimX | neko_utils/neko_ds_tools.py:21-26 | reverse of `np.meshgrid` along x |
| NekStore.MeshgridToDimY | neko_utils/neko_ds_tools.py:21-26 | reverse of `np.meshgrid` along y |
| NekStore.MeshgridToDimZ | neko_utils/neko_ds_tools.py:21-26 | reverse of `np.meshgrid` along z |
| NekStore.MeshgridToDimIdempotent | neko_utils/neko_ds_tools.py:21-26 | applying it to its own result changes nothing |
| ScalarNames.ScalarName | neko_utils/neko_ds_tools.py:66 | `"s{:02d}".format(i)`: `s` followed by the index zero-padded to two digits; the rows below state its properties |
| ScalarNames.Decimal | neko_utils/neko_ds_tools.py:66 | decimal digits with no leading zero; one digit below 10, at most two below 100 |
| ScalarNames.ParseDecimalOfDecimal | neko_utils/neko_ds_tools.py:66 | the digits read back as the number |
| ScalarNames.ZeroPad2 | neko_utils/neko_ds_tools.py:66 | `{:02d}`: digits only, exactly two below 100 |
| ScalarNames.ParseZeroPad2 | neko_utils/neko_ds_tools.py:66 | padding loses nothing |
| ScalarNames.ScalarNameShape | neko_utils/neko_ds_tools.py:66 | `s` followed by at least two digits that denote the index |
| ScalarNames.ScalarNameInjective | neko_utils/neko_ds_tools.py:66 | different scalar indices give different names |
| ScalarNames.ScalarNameExamples | neko_utils/neko_ds_tools.py:66 | `s01`, `s09`, `s10`, `s100` |
| NekStore.ScalarNameFresh | neko_utils/neko_ds_tools.py:46-69 | no scalar name equals a fixed key, `pressure` or `temperature` |
| NekStore.ScalarVariables | neko_utils/neko_ds_tools.py:63-69 | one entry per scalar field, holding that field; none overwrites another |
| NekStore.AddScalarStep | neko_utils/neko_ds_tools.py:64-68 | adding the n-th scalar name to the entries of the first n - 1 fields gives the entries of the first n, one more than before |
| NekStore.GetVariables | neko_utils/neko_ds_tools.py:40-71 | the nine fixed keys are always present; `pressure`/`temperature` iff their arrays are non-empty; the scalar keys iff the scalar array is non-empty; no other key |
| NekStore.Size | neko_utils/neko_ds_tools.py:57-63 | `.size` of an array of meshes: zero iff every mesh is empty; positive only for a non-empty array |
| NekStore.AddIfPresent | neko_utils/neko_ds_tools.py:57-61 | adds `name` holding the first mesh exactly when the array's size is positive; every other entry is kept |
| NekStore.FixedValue | neko_utils/neko_ds_tools.py:46-56 | the dict literal's entry for one fixed key: `x`, `y`, `z` from the reference positions through `meshgrid_to_dim`, the meshes from the reference positions, `ux`, `uy`, `uz` from the field element's velocity |
| NekStore.FixedVariables | neko_utils/neko_ds_tools.py:46-56 | the dict literal: exactly the nine fixed keys, each holding its `FixedValue` |
| NekStore.WithOptional | neko_utils/neko_ds_tools.py:46-61 | the fixed keys, plus `pressure` iff the pressure array is non-empty and `temperature` iff the temperature array is non-empty |
| NekStore.AddScalars | neko_utils/neko_ds_tools.py:63-69 | the scalar update adds one key per field only when the scalar array is non-empty, and keeps every earlier entry |
| NekStore.FixedEntry | neko_utils/neko_ds_tools.py:46-69 | later updates never overwrite a fixed entry |
| NekStore.CoordinateEntries | neko_utils/neko_ds_tools.py:47-49 | `x`, `y`, `z` come from the reference element's `pos[0]`, `pos[1]`, `pos[2]` |
| NekStore.MeshEntries | neko_utils/neko_ds_tools.py:50-52 | the meshes are the reference element's unrounded positions, on axes (z, y, x) |
| NekStore.VelocityEntries | neko_utils/neko_ds_tools.py:53-55 | `ux`, `uy`, `uz` come from the field element's velocity |
| NekStore.OptionalEntries | neko_utils/neko_ds_tools.py:57-69 | pressure, temperature and scalars hold the field element's first pressure, first temperature and i-th scalar meshes |
| NekStore.GetVariablesCount | neko_utils/neko_ds_tools.py:46-69 | 9 + [pressure] + [temperature] + (number of scalars when present) variables |
| NekStore.KeysFromPrimary | neko_utils/neko_ds_tools.py:46-69 | the set of keys does not depend on the reference element |
| NekStore.FieldsFromPrimary | neko_utils/neko_ds_tools.py:53-69 | swapping the reference element changes no velocity, pressure, temperature or scalar entry |
| NekStore.CoordinatesOfBox | neko_utils/neko_ds_tools.py:21-26 | for a cartesian box built from 8-decimal ascending vectors, the coordinates are those vectors |
| NekStore.MergeCount | neko_utils/neko_ds_tools.py:63-69 | merging key-disjoint maps adds their sizes |
| NekDataset.Pair | neko_utils/neko_ds_tools.py:94-96 | as many stores as the shorter element list; the i-th pairs the i-th elements |
| NekDataset.PairIgnoresSurplus | neko_utils/neko_ds_tools.py:94-96 | elements past the shorter list play no part |
| NekDataset.ElementDatasets | neko_utils/neko_ds_tools.py:94-100 | one dataset per paired element, as many as the shorter element list has; `MergeInputs` states their contents |
| NekDataset.MergeInputs | neko_utils/neko_ds_tools.py:94-100 | the merge sees, at position i, the variables of the i-th pair |
| NekDataset.WithTime | neko_utils/neko_ds_tools.py:111 | the merged variables plus the scalar coordinate `time` holding the field file's time stamp; every other variable is unchanged |
| NekDataset.DropVars | neko_utils/neko_ds_tools.py:113-114 | fails iff a named variable is absent; otherwise removes exactly the named variables and keeps the rest unchanged |
| NekDataset.OpenNekDataset | neko_utils/neko_ds_tools.py:87-116 | a failed field file is the one error that names the path; a failed reference gives another error; with both loaded, the merge error occurs iff the merge fails, success iff the merge succeeds and every name to drop is `time` or in the merge, and otherwise a missing name to drop, other than `time`, is reported; on success the result is the merge plus `time` minus the dropped names, `time` holding the field file's time stamp |
| NekDataset.NoDropKeepsMerge | neko_utils/neko_ds_tools.py:110-116 | with nothing to drop, the result is the merge with the time stamp attached |
| NekDataset.DropTime | neko_utils/neko_ds_tools.py:110-116 | dropping `time` succeeds once the merge has, and gives the merge without `time` |
| NekDataset.OnlyFieldPathChecked | neko_utils/neko_ds_tools.py:87-91 | once the field file has failed, the reference makes no difference |

## Left out

- Reading files: `pd.read_csv` and `pm.readnek` are not modelled. Their results are inputs: a rectangular `Frame`, or a `ReadOutcome`.
- Float behaviour:
  - Values are exact reals, and NaN in the input table is not modelled. Missing cells arise only from the pivot.
  - `np.round` is exact round-half-to-even at 10⁸ on reals. Binary float representation is left out.
- `CsvTools.CsvToXr`: a `height` label equal to `time` or to a registry name fails as `DuplicateLabel`. This stands in for the error pandas raises when grouping by a duplicated label, whose text is not modelled.
- `CsvTools.CsvToXr`: the xarray `Dataset` is reduced to its axes and a map from name to grid. DataArray metadata and coordinate objects are left out.
- `NekStore.GetVariables`:
  - `xr.Variable` is reduced to its dims and data.
  - A coordinate entry is the bare recovered vector.
  - numpy arrays are sequences of meshes; `.size` is the number of values they hold.
- `get_dimensions` and `get_attrs` are left out: a constant and a pass-through of element attributes, with no logic.
- `NekDataset.OpenNekDataset`:
  - `xr.Dataset.load_store`, `set_coords` and `xr.combine_by_coords` are one opaque `combine` parameter that may fail (`MergeFailed`).
  - `MergeFailed` stands for two different exceptions. A `ValueError` from `load_store` or `set_coords` is re-raised as `NotImplementedError` (neko_utils/neko_ds_tools.py:97-108). A `ValueError` from `combine_by_coords` is outside the `try` (line 110) and propagates unchanged. The model does not tell the two apart.
  - The time stamp is a `Scalar` variable; that xarray makes it a coordinate rather than a data variable is not modelled.
  - `drop_variables` is a list; `None` is modelled as the empty list.
- `NekDataset.DropVars`: xarray's error lists every missing name; the model reports the first (`Lookups.FirstMissing`).
- `setup.py` is packaging metadata and is not part of this model.

## Findings

| source | as written | input that shows it | evidently intended | confidence | as-written member | corrected member |
|---|---|---|---|---|---|---|
| neko_utils/csv_tools.py:48-53 | the loop corrects every name longer than one character without a `d`. That includes `e11`…`e23`, so it looks up `ds["e"]`, which does not exist; when the height label is itself `e`, that lookup finds the coordinate and the next one, `ds["1"]`, fails | any 46-column table converted with `basic=False` (and a free height label) | skip the `e_ij` names, as the comment on line 48 says | not executed | CsvTools.ExtendedFailsAsWritten | CsvTools.ExtendedSucceedsIntended |

The corrected guard `Intended` is the one the conversion's cell lemma
`CsvTools.CsvToXrCells` describes for extended tables. The basic registry has no
`e` names, and `CsvTools.BasicGuardsAgree` shows that both guards agree there.
