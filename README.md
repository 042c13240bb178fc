# OPD usage analysis: a verified model of the batch pipeline

The application reads one table of per-member records of insurance
outpatient-department (OPD) benefit usage. It cleans the table,
filters it on five categorical dimensions, groups it by age, and
reports five summary figures and a 12-row distribution of usage
"slabs". This project models that pipeline in Dafny and proves what it
computes. The pipeline is `load_data` and the non-display part of
`process_data` in `app.py`, plus the "select all" defaults that `main`
passes to the filter.

Modules (one file each):

- `Table` (`table.dfy`): the row types. `Profile` holds the five filter
  dimensions and the `Age` key. `RawRecord` is an input row, whose MRP
  and refund amounts may be missing. `Record` is a cleaned row, and
  `Sums` holds the four amounts the analysis adds up.
- `Frames` (`frames.dfy`): the dataframe as a class `Frame`. Its columns
  are `seq` fields. A column that does not exist yet is `None`. Boolean
  indexing (`frame[mask]`) is `Frame.Select`, which returns a fresh frame.
- `Loader` (`loader.dfy`): `load_data`. It changes the caller's frame in
  place: `fillna(0)` on the two amount columns, then the derived
  "Total OPD Used" column. The frame aliases its argument (`data = file`),
  so this is the caller's frame. It then selects a fresh copy without
  the rows whose "Sum of OPD Limit" is 0 and adds "Opd Perc" to that
  copy. `Clean` is the reference definition of the loaded table.
- `Filtering` (`filtering.dfy`): the conjunctive `isin` filter over the
  five dimensions, and the default selections of `main`.
- `Aggregation` (`aggregation.dfy`): `groupby("Age").agg(sum)` (groups
  come out in ascending age order, as pandas sorts group keys) and the
  five summaries.
- `Binning` (`binning.dfy`): the usage ratio and `pd.cut` over the 13
  bin edges, with intervals closed on the right. It also builds the
  12-row table of `value_counts().sort_index()` on the categorical slab
  column: every label in fixed order, with 0 for an empty slab.
- `Analysis` (`analysis.dfy`): `process_data`. It builds the grouped
  table as an `AgeTable` object and adds the ratio and slab columns to
  it in place. `process_data` returns only the slab table and displays
  the five summaries; the model returns the displayed summaries as well.

Amounts are exact Dafny `real`s. So every bin test is an exact
comparison. For a positive limit, `used / limit <= k / 10` is the same
as `10 * used <= k * limit` (`Binning.RatioAtMostEdge`).

Points of the code worth knowing:

- A group's ratio is 0 whenever its limit is not positive
  (app.py:126). That includes negative limits, not only a limit of 0.
- Customers are counted as distinct ages, not as members: the count is
  the number of rows of the table grouped by age (app.py:98).
- A file without one of the required columns raises `KeyError`
  (app.py:69). Rows are typed in the model, so that case cannot arise.

## Model

| member | source | states |
|---|---|---|
| `Frames.Frame.Read` | app.py:143 | the frame read from the file holds exactly the given rows, column by column, and has neither derived column yet |
| `Frames.Where` | app.py:74 | boolean indexing keeps as many cells as the mask has true entries, and only cells of the column |
| `Frames.TrueIndices` | app.py:74 | the positions where the mask is true, strictly increasing, as many as the mask selects, and containing a position exactly when the mask is true there |
| `Frames.WhereAtTrueIndices` | app.py:74 | boolean indexing keeps exactly the cells at the mask's true positions, in their original order |
| `Frames.ZipSnoc` | app.py:74 | induction step of `ZipWhere`: appending one cell to every column appends one row to the row view |
| `Frames.ZipWhere` | app.py:74 | masking every column with the same mask selects exactly the masked rows of the frame, in order |
| `Frames.Frame.Select` | app.py:74 | `frame[mask]` is a fresh frame whose every column is the masked column; a cleaned frame stays cleaned and its rows are the masked rows |
| `Loader.FillZero` | app.py:69-70 | after `fillna(0)` no cell is missing; present cells are unchanged and missing cells become 0 |
| `Loader.AddColumns` | app.py:72 | the derived column is the cell-wise sum of the two filled amount columns |
| `Loader.NonZero` | app.py:74 | the mask is true exactly at the rows whose OPD limit is not 0 |
| `Loader.Derive` | app.py:69-72 | a derived row keeps the profile and limit; a missing MRP or refund reads as 0, a present one is kept; Total OPD Used = MRP + refund |
| `Loader.FilledColumnsAreDerived` | app.py:69-72 | filling both amount columns and adding their sum turns every input row into its derived row |
| `Loader.Clean` | app.py:66-74 | no loaded row has an OPD limit of 0, and every loaded row's usage is its MRP plus its refund |
| `Loader.KeptIndices` | app.py:74 | the positions the mask `limit != 0` keeps are strictly increasing and are exactly the rows whose limit is not 0 |
| `Loader.CleanKeepsNonzeroRowsInOrder` | app.py:74 | the loaded table is, position by position, the derived rows at exactly the nonzero-limit positions, in original order |
| `Loader.WhereNonZeroIsClean` | app.py:74 | selecting the derived rows with the mask `limit != 0` yields the loaded table |
| `Loader.OpdPerc` | app.py:76-80 | the usage percentage of a row is 0 when nothing was used |
| `Loader.OpdPercColumn` | app.py:76-80 | the "Opd Perc" column has one cell per row, and it is 0 wherever the usage is not positive |
| `Loader.FillAndDerive` | app.py:69-72 | the frame is changed in place: its rows become the derived rows of the input rows, and the profile, limit and percentage columns are unchanged |
| `Loader.AddOpdPerc` | app.py:76-80 | the percentage column is added in place, computed from the frame's rows; the rows are unchanged |
| `Loader.LoadData` | app.py:66-81 | the caller's frame is left filled, with the usage column added; the result is a fresh frame whose rows are exactly `Clean` of the input, with the percentage column |
| `Filtering.Filter` | app.py:84-86 | the filter keeps at most the rows of the table, and each of the five dimensions of every kept row is in its chosen set |
| `Filtering.MatchMask` | app.py:84-86 | the mask is true at a row exactly when each of its five dimensions is in its chosen set |
| `Filtering.FilterIsWhere` | app.py:84-86 | the filter is boolean indexing of the table with the `isin` mask |
| `Filtering.FilterInOrder` | app.py:84-86 | the filtered rows are exactly the matching rows of the table, at their positions in increasing order |
| `Filtering.FilterMembership` | app.py:84-86 | a row is kept exactly when it was in the table and each of its five dimensions is in its chosen set |
| `Filtering.FilterKeepsMultiplicity` | app.py:84-86 | a matching row is kept as many times as it occurs, a non-matching one never |
| `Filtering.FilterKeepsMatchingRows` | app.py:84-86 | when every row matches, the filter returns the table unchanged and in order |
| `Filtering.EmptyChoiceKeepsNothing` | app.py:84-86 | an empty chosen set in any dimension keeps no row |
| `Filtering.DefaultSelection` | app.py:147-151 | the default selection, all distinct values of each column, matches every row of the table |
| `Filtering.DefaultSelectionKeepsAll` | app.py:147-151 | with the defaults, the filter returns the loaded table unchanged |
| `Aggregation.AscendingByIndex` | app.py:88-93 | the ages of the grouped table increase strictly with the row index |
| `Aggregation.Insert` | app.py:88-93 | adding a row to the grouped table adds at most one group and removes none |
| `Aggregation.InsertKeepsGroups` | app.py:88-93 | after adding a row, every group either has that row's age or was already in the table |
| `Aggregation.InsertAddsItsAge` | app.py:88-93 | adding a row adds exactly that row's age to the set of group ages |
| `Aggregation.InsertKeepsOrder` | app.py:88-93 | adding a row keeps the groups in strictly ascending age order |
| `Aggregation.InsertAddsToItsAge` | app.py:88-93 | adding a row adds its amounts to its own age's group and changes no other age |
| `Aggregation.InsertAddsToTotal` | app.py:88-93 | adding a row adds its amounts to the column totals of the grouped table |
| `Aggregation.GroupByAge` | app.py:88-93 | `groupby("Age").agg(sum)` has at most one group per row, and at least one group when there are rows; its full characterisation is `GroupByAgeIsPartition` |
| `Aggregation.GroupByAgeAscending` | app.py:88-93 | the grouped table is in strictly ascending age order |
| `Aggregation.GroupByAgeAges` | app.py:88-93 | the ages of the grouped table are exactly the distinct ages of the rows |
| `Aggregation.GroupByAgeTotal` | app.py:88-96 | grouping preserves the column totals |
| `Aggregation.GroupByAgeSumsAt` | app.py:88-93 | the sums recorded for an age are the totals of that age's rows, and zero for an age with no rows |
| `Aggregation.GroupByAgeIsPartition` | app.py:88-93 | the grouped table is ascending, its ages are the distinct ages of the rows, each age's sums are the totals of that age's rows, and the column totals are preserved |
| `Aggregation.GroupSumsAreAgeTotals` | app.py:88-93 | each group holds the four sums of exactly the rows of its age |
| `Aggregation.AscendingGroupsAreDistinct` | app.py:98 | an ascending grouped table has as many rows as distinct ages |
| `Aggregation.Summarize` | app.py:96-100 | the customer count is the number of grouped rows |
| `Aggregation.SummaryOfRows` | app.py:88-100 | assigned, exhausted, in-OPD and reimbursements equal the totals of limit, usage, MRP and refund over the filtered rows; the customer count is the number of distinct ages; exhausted = in-OPD + reimbursements; no rows gives all zeros |
| `Table.TotalUsageSplits` | app.py:72 | over rows whose usage is MRP plus refund, total usage is total MRP plus total refund |
| `Binning.BinsListed` | app.py:131 | the 13 bin edges are -inf, 0, 0.1, ..., 0.9, 1, +inf in that order |
| `Binning.EdgesIncrease` | app.py:131-133 | the edges do not decrease: a value above an edge is above every earlier edge |
| `Binning.EdgesStrictlyIncrease` | app.py:131 | the finite edges strictly increase, as `pd.cut` requires, and the outer edges are -inf and +inf |
| `Binning.Locate` | app.py:133 | scanning the edges from slab k finds a slab at or after k that contains the ratio |
| `Binning.SlabOf` | app.py:133 | `pd.cut` places a ratio in a slab (lower edge, upper edge] that contains it |
| `Binning.SlabIsUnique` | app.py:131-133 | every ratio lies in exactly one slab, the one `SlabOf` picks |
| `Binning.EdgeSlabs` | app.py:131-133 | a ratio of 0 or below is "<0%", exactly 0.1 is "1-10%", exactly 1 is "91-100%", and above 1 is ">100%" |
| `Binning.UsageRatio` | app.py:125-129 | for a positive limit the ratio times the limit is the usage; for a non-positive limit the ratio is 0; its slab is characterised by `GroupSlab` |
| `Binning.RatioAtMostEdge` | app.py:125-133 | for a positive limit, `used / limit <= k / 10` exactly when `10 * used <= k * limit` |
| `Binning.LowSlab` | app.py:125-133 | with a positive limit, a group is in "<0%" exactly when its usage is not positive |
| `Binning.HighSlab` | app.py:125-133 | with a positive limit, a group is in ">100%" exactly when its usage exceeds its limit |
| `Binning.MiddleSlabBounds` | app.py:131-133 | a middle slab k holds exactly the ratios above (k - 1) / 10 and at most k / 10 |
| `Binning.RatioBetweenEdges` | app.py:125-133 | with a positive limit, a group's ratio lies between two edges exactly when its usage scaled by 10 lies between the limit scaled by those edges |
| `Binning.MiddleSlab` | app.py:125-133 | with a positive limit, a group is in middle slab k exactly when (k-1)·limit < 10·used <= k·limit |
| `Binning.GroupSlab` | app.py:125-133 | a group with a non-positive limit or usage is "<0%", usage above a positive limit is ">100%", and otherwise its slab k is the one with (k-1)·limit < 10·used <= k·limit |
| `Binning.Slabs` | app.py:133 | the slab column has one slab per group, each containing that group's ratio |
| `Binning.SlabColumnIsSlabs` | app.py:125-133 | a column that puts each group's ratio in a slab containing that ratio is the slab column |
| `Binning.CountBelowAll` | app.py:135 | every slab entry is counted in one of the 12 slabs |
| `Binning.SlabTable` | app.py:131-136 | the result has 12 rows, the labels are in fixed order, each count is how often its slab occurs (0 if never), and the counts sum to the number of groups |
| `Analysis.AgeTable.AddUsageRatio` | app.py:125-129 | the ratio column is added in place: used over limit for a positive limit, else 0; nothing else changes |
| `Analysis.AgeTable.AddSlab` | app.py:131-133 | the slab column is added in place: each group's slab contains its ratio; nothing else changes |
| `Analysis.ProcessData` | app.py:83-138 | the summaries are the totals over the filtered rows, with one customer per distinct age; the slab table has 12 rows in label order, and its counts sum to the customer count |
| `Analysis.LoadedSplits` | app.py:66-100 | on the loaded table, for every filter choice, OPD exhausted equals in-OPD used plus reimbursements |
| `Analysis.DefaultsCoverLoadedTable` | app.py:147-151 | with all defaults selected, the analysis works on the whole loaded table |
| `Analysis.EmptyChoiceGivesEmptyResult` | app.py:84-138 | an empty choice in any dimension gives zero summaries and 12 slabs with count 0 |
| `Analysis.ExampleGroups` | app.py:88-93 | two rows of ages 30 and 40 give two groups in ascending age order, each with its row's amounts |
| `Analysis.ExampleSlabs` | app.py:125-133 | usage 500 of 1000 lands in "41-50%" and 2400 of 2000 in ">100%" |
| `Analysis.TwoAgesExample` | app.py:83-138 | usage 500 of 1000 and 2400 of 2000 give one count in "41-50%" and one in ">100%", 3000 assigned and 2900 exhausted |

## Left out

- Display: the CSS blocks, the summary-card HTML with its `:.2f` formatting, the dividers, the styled table and the bar chart. All of them belong to the display libraries.
- Reading `data1.csv` and the widget and button loop of `main`. The table is the argument of `Frames.Frame.Read`, and the five selections are an argument of `Analysis.ProcessData`. The multiselect options are modelled only as the default `Filtering.DefaultSelection`.
- Floating point: amounts are exact reals. So binary rounding of the ratio, float summation order, and float comparison at the bin edges are not modelled.
- Loader.OpdPerc: the numpy rounding to one decimal (half to even on binary floats) is the parameter `round1`. Only "0 when nothing was used" is stated about the column.
- Missing values other than the two `fillna(0)` columns: the limit, the categorical columns and `Age` are never missing here. So a missing limit that survives `!= 0` is not modelled, nor are rows that `groupby` drops for a missing age.
- Loader.AddColumns: requires both amount columns to be filled already. `load_data` always fills them first, so missing-value propagation through `+` is not modelled.
- A missing column: the rows are typed, so the pandas `KeyError` that a file without a required column would raise cannot occur.
- pandas indexes (`reset_index`) and dtypes. The copy-versus-view question of `.loc` on the filtered frame is also left out: the selected frame is modelled as an independent copy.
- Filtering.Filter: filters the row view of the loaded frame instead of masking every column of it. `FilterIsWhere` and `FilterInOrder` state that this is the same boolean indexing as `Frames.Where`.
