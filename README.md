# AFOLU land-use transition bookkeeping, in Dafny

AFOLU (agriculture, forestry and other land use) is a Dagster pipeline. It classifies
Earth Engine land-cover rasters into a fixed taxonomy of land-use labels. From those it
builds two kinds of table:

- transition tables: the area of land that went from a start label to an end label between
  two years;
- area tables: the area of land under each label, year by year.

This project models the bookkeeping the pipeline does around its Earth Engine calls, and
proves properties of it:

- **The transition-code codec.** `transition_label_map` gives the pair of taxonomy indices
  (i, j) the code `i * m + j`, where `m` is the least power of ten that is at least the
  number of labels. The map is written as JSON and read back with string keys. Its inverse
  turns a label pair back into its code.
- **Rasters at one pixel.** A class image is a function from band name to pixel value. The
  model covers:
  - the class masks and the four derived masks (primary and secondary forest, pasture,
    merged grassland), as 0/1 values of 32-bit pixels;
  - the "last write wins" `where` folds that build the area raster and the transition
    raster;
  - the `And` of two masks that builds a label-pair raster.
- **Tables.**
  - A `Frame` holds row labels, column labels and rows of cells. A cell is a `real` or
    `None` (NaN).
  - The model covers `pivot_table` (mean aggregation), `fillna`, adding missing rows and
    columns of zeros, sorting, the unit scalings (÷ 1e6, ÷ 10 000) and the column
    fractions.
  - The national `area_table_merged` keeps pandas' column-wise `concat`, the `label_map`
    relabelling and the `drop` of the "null" row, each with its error cases.
- **Keys, bands and paths.**
  - Partition keys "Y_Y+1", "S-E|Y1_Y2" and "label|year", with Python's `split`, `int` and
    `str`.
  - Band names "b(year − 1999)".
  - The JSON IO managers' file path: data path / "generated" / asset key, with suffix
    ".json".
- **The bounding-polygon assets.** The largest-area part of a multipolygon is selected by a
  strict-greater loop, simplified and checked to be a polygon. The Earth Engine bounding
  polygon is the stored polygon's exterior ring.

`LABEL_LIST` (in `afolu.assets.constants`, which is not part of this model) is a parameter
`labels: seq<string>`. The `img_map` dicts list the labels in the same order, so the images
are a sequence parallel to `labels`. Python's errors are values of the `Wrappers.Error`
datatype, returned in a `Result`: `ValueError`, `KeyError`, `TypeError`, `IndexError` and
`AttributeError`.

Where the code and its documentation differ, the model follows the code:

- In the small region's `transition_table`, unclassified pixels (raster value 0) are
  decoded as the transition (first label, first label), because 0 is that pair's code. The
  model keeps this and states it (`Rasters.BackgroundDecodesAsFirstPair`).
- The large regions' transition and area tables add no missing labels and fill no cells:
  their rows and columns are only the labels that occur. A missing area cell stays NaN, and
  a missing transition cell is 0 only because of `fillna(0)`.

## Model

| member | source | states |
|---|---|---|
| TransitionCodes.Multiplier | afolu/assets/labels.py:10 | `10 ** ceil(log10 N)` is a power of ten, at least N and at least 1, and the least such: a tenth of it is below N unless it is 1 |
| TransitionCodes.LeastPow10From | afolu/assets/labels.py:10 | searching upwards from a power of ten that is not yet too large ends at the least power of ten that is at least N |
| TransitionCodes.EncodeDecode | afolu/assets/labels.py:15 | integer division and remainder by the multiplier recover both label indices from the code `i * m + j` |
| TransitionCodes.EncodeInjective | afolu/assets/labels.py:15-16 | two index pairs below the multiplier with the same code are the same pair, so the uniqueness assert holds |
| TransitionCodes.EncodeIncreasing | afolu/assets/labels.py:13-15 | codes strictly increase in the row-major order the nested loops visit the pairs |
| TransitionCodes.RowsFacts | afolu/assets/labels.py:13-17 | after the first i rows, the inserted items have strictly increasing codes below `i * m`, each decoding to its own label pair, and there are i·N of them |
| TransitionCodes.RowsHold | afolu/assets/labels.py:13-17 | after the first i rows, every pair (a, b) with a < i has been inserted |
| TransitionCodes.EntriesFacts | afolu/assets/labels.py:12-17 | the finished map has exactly N·N items with strictly increasing codes, every code decodes to its pair, and every pair of labels is present |
| TransitionCodes.NewKeyIsFresh | afolu/assets/labels.py:16 | the code about to be inserted is not among the codes inserted before it, so the assert never fails |
| TransitionCodes.TransitionLabelMap | afolu/assets/labels.py:9-19 | the nested loops insert exactly the N·N items of the map, one per label pair in row-major order, so neither the uniqueness assert here nor the duplicate-key `ValueError` of the copy at afolu/assets/small/transitions.py:17-29 ever fires |
| TransitionCodes.LookupDump | afolu/assets/small/transitions.py:84 | after the JSON round trip (integer keys written as decimal strings), looking up `str(k)` finds what `k` found before |
| TransitionCodes.Inverse | afolu/assets/small/transitions.py:83-85 | when the inverse exists, its keys are exactly the label pairs that the loaded map holds |
| TransitionCodes.InverseOfDump | afolu/assets/small/transitions.py:83-85 | when no label pair repeats, the inverse of the loaded map exists and sends every pair back to the code it was stored under |
| TransitionCodes.InverseExact | afolu/assets/small/transitions.py:83-85 | with distinct codes and pairs, `inv[v] == k` holds exactly when the loaded map stores `v` under `str(k)` |
| TransitionCodes.EntriesValuesDistinct | afolu/assets/small/transitions.py:83-85 | with distinct labels, no label pair is stored twice, so the inverse loses nothing |
| TransitionCodes.LookupCode | afolu/assets/labels.py:15-17 | the code of (i, j) looks up the pair (labels[i], labels[j]) in the map |
| TransitionCodes.DecodeCode | afolu/assets/labels.py:15-17 | the code of (i, j) decodes by division and remainder, and both the map and the reloaded map give the labels (labels[i], labels[j]) |
| TransitionCodes.CodeZero | afolu/assets/labels.py:15 | code 0 is the first item and holds (labels[0], labels[0]); the reloaded map gives that pair for "0" |
| TransitionCodes.InverseGivesCode | afolu/assets/small/transitions.py:83-85 | with distinct labels, the inverse of the reloaded map sends (labels[i], labels[j]) to the code of (i, j) |
| TransitionCodes.DecodeExact | afolu/assets/small/transitions.py:135 | a code that the reloaded map knows decodes to (labels[i], labels[j]) exactly when it is the code of (i, j) |
| TransitionCodes.DecodedCode | afolu/assets/small/transitions.py:135 | a code that decodes to (labels[i], labels[j]) is the code of (i, j) |
| TransitionCodes.SamePairSameCode | afolu/assets/labels.py:15-17 | with distinct labels, two in-range codes that decode to the same label pair are equal |
| TransitionCodes.Lookup | afolu/assets/small/transitions.py:135 | `d[key]` is found exactly when some item has that key |
| Decimal.ParseShow | afolu/assets/small/transitions.py:84 | `int(str(k)) == k` for every integer |
| Decimal.ShowInjective | afolu/assets/small/transitions.py:84 | two integers with the same decimal string are equal |
| Decimal.ShowNat | afolu/assets/small/transitions.py:135 | `str(n)` of a natural number is a non-empty string of digits with no leading zero, one digit long exactly below 10 |
| Decimal.ParseInt | afolu/assets/common.py:2-3 | the model's `int(s)` (narrower than Python's, see Left out): it succeeds exactly on an optional minus sign followed by one or more digits, and fails with `ValueError` otherwise |
| Decimal.SplitJoin | afolu/assets/large/transitions.py:112-113 | splitting a join of pieces on a separator that no piece holds gives the pieces back |
| Decimal.SplitTwo | afolu/assets/large/transitions.py:112-113 | `a, b = s.split(sep)` succeeds exactly when the split gives two pieces, neither holding the separator |
| Decimal.SplitTwoJoin | afolu/assets/large/transitions.py:112-113 | splitting `a + sep + b` gives back (a, b) when neither holds the separator |
| Bands.YearToBandName | afolu/assets/common.py:1-4 | an int year always gives a band name, and every band name is "b" followed by more characters |
| Bands.BandNumber | afolu/assets/common.py:4 | the digits after "b" read back as the year minus 1999 |
| Bands.StringYearAgrees | afolu/assets/common.py:2-3 | a year given as its decimal string names the same band as the int year |
| Bands.BandNameInjective | afolu/assets/common.py:4 | different years name different bands |
| Bands.BandsAreConsecutive | afolu/assets/common.py:4 | 2000 is band "b1", and the next year's band number is one more |
| Partitions.YearPartitionKeys | afolu/partitions.py:4-6 | there are exactly 22 keys, and key k is "Y_(Y+1)" for Y = 2000 + k |
| Partitions.SplitYearPair | afolu/partitions.py:5 | splitting a key on "_" gives two integers, Y and Y + 1 |
| Partitions.KeysAscending | afolu/partitions.py:5 | the keys are distinct and strictly ascending as Python strings, in the order of their years |
| Partitions.KeyIsNoInt | afolu/partitions.py:4-6 | no whole year-pair key is an `int` literal of the model: the "_" between the years stops the digits |
| Partitions.KeyOrder | afolu/partitions.py:5 | for four-digit years, the string order of "a_(a+1)" and "b_(b+1)" is the numeric order of a and b |
| Managers.GetPath | afolu/managers.py:15-18 | `_get_path`: the data path joined with "generated" and with the asset key's segments joined by "/" |
| Managers.GetPathSegments | afolu/managers.py:15-18 | `_get_path` is the data path, then "generated", then the asset-key segments in order |
| Managers.WithSuffix | afolu/managers.py:24 | `with_suffix` succeeds exactly on a path with a last component, and changes nothing but that last component |
| Managers.JsonPathShape | afolu/managers.py:22-35 | the JSON file is `_get_path` with the last segment's suffix replaced by ".json" (the segment plus ".json" when it holds no dot), and the writer and the loader open the same file |
| Managers.JsonPath | afolu/managers.py:22-32 | the file both JSON methods open: `_get_path` with the suffix ".json", failing as `with_suffix` does on a path with no last component |
| Managers.WriterDirectory | afolu/managers.py:24-25 | the directory created before writing is the data path, "generated" and every key segment but the last |
| ClassMasks.Eq | afolu/assets/class_masks.py:12 | `img.eq(code)` is a 0/1 mask, set exactly where the raw class code equals `code` |
| ClassMasks.ClassMask | afolu/assets/class_masks.py:10-15 | an empty code list is the `IndexError` of `label_list[0]`; otherwise the OR-fold is a 0/1 mask, set exactly where the raw code is in the list |
| ClassMasks.ForestPrimary | afolu/assets/class_masks.py:27-28 | `forest_primary`: the bitwise AND of the forest pixel and the forest mask pixel |
| ClassMasks.ForestSecondary | afolu/assets/class_masks.py:39-40 | `forest_secondary`: the bitwise AND of the forest pixel and the complement of the primary forest pixel |
| ClassMasks.Pasture | afolu/assets/class_masks.py:50-51 | `pasture`: the bitwise AND of the grassland-to-pasture pixel and the random mask pixel |
| ClassMasks.GrasslandMerged | afolu/assets/class_masks.py:62-69 | `grassland_merged`: grassland-to-pasture AND the complement of the random mask, then OR grassland |
| ClassMasks.PrimaryWithinForest | afolu/assets/class_masks.py:27-28 | primary forest is a 0/1 mask, set exactly where both forest and the forest mask are set |
| ClassMasks.ForestPartition | afolu/assets/class_masks.py:27-40 | primary and secondary forest share no bit, and together they are forest |
| ClassMasks.SecondaryIsForestOutsidePrimary | afolu/assets/class_masks.py:39-40 | secondary forest is a 0/1 mask, set exactly where forest is set and the forest mask is not |
| ClassMasks.PastureWithinToPasture | afolu/assets/class_masks.py:50-51 | pasture is a 0/1 mask, set only where grassland-to-pasture is set |
| ClassMasks.PastureAndMergedGrassland | afolu/assets/class_masks.py:50-69 | pasture and merged grassland together cover grassland-to-pasture and grassland, and they overlap exactly where both inputs and the random mask are set |
| Rasters.And | afolu/assets/large/transitions.py:77 | `a.And(b)` is 1 exactly where both inputs are non-zero, else 0 |
| Rasters.LastSet | afolu/assets/small/areas.py:56-57 | the last of the first n images set in the band, or none when none of them is set |
| Rasters.AreaRaster | afolu/assets/small/areas.py:39-59 | a partition key that does not parse is the error of `year_to_band_name`; otherwise the pixel is the value of the `where` fold at the key's band; the national `area_raster` at afolu/assets/areas.py:30-50 is the same fold |
| Rasters.AreaValueRange | afolu/assets/small/areas.py:55-57 | the area raster's value lies in 0..N. It is 0 exactly when no label's image is set; otherwise it is i + 1 for the last label i whose image is set |
| Rasters.TransitionBands | afolu/assets/small/transitions.py:63-65 | `start_year, end_year = key.split("_")` and their band names (also afolu/assets/large/transitions.py:54-56): the unpacking's `ValueError`, then the first year's `int` error, then the second's; a result means the key split in two |
| Rasters.TransitionBandsOfKey | afolu/assets/small/transitions.py:63-65 | the key "Y1_Y2" selects start band b(Y1 − 1999) and end band b(Y2 − 1999) |
| Rasters.PartitionBands | afolu/assets/small/transitions.py:63-65 | each year-pair partition compares band b(Y − 1999) with the next band |
| Rasters.TransitionFold | afolu/assets/small/transitions.py:87-95 | the nested `where` fold fails (`KeyError`) exactly when some label pair is missing from the inverse map; otherwise it yields the code of the last (start, end) pair set in both bands, or 0 |
| Rasters.TransitionRaster | afolu/assets/small/transitions.py:63-97 | errors from the key, then from the inverse map, then from a missing pair, in that order; otherwise the pixel is the fold's value |
| Rasters.FoldRow | afolu/assets/small/transitions.py:88-95 | one pass of the inner loop over the end labels fails exactly when a pair with start label i is missing from the inverse map; otherwise it leaves the value after rows 0..i |
| Rasters.RowDone | afolu/assets/small/transitions.py:87-95 | finishing one row of the inner loop leaves the value after that row |
| Rasters.TransitionValueDecodes | afolu/assets/small/transitions.py:67-95 | with the label map this project writes, a pixel holds the code of (last start label set, last end label set), which decodes to that label pair, or 0 when either is missing |
| Rasters.BackgroundDecodesAsFirstPair | afolu/assets/small/transitions.py:67-135 | a pixel with no start or no end label holds 0, and 0 decodes as (labels[0], labels[0]) |
| Rasters.ImageOf | afolu/assets/large/transitions.py:74-75 | `img_map[label]` exists exactly for a taxonomy label |
| Rasters.ImageOfLabel | afolu/assets/large/transitions.py:74-75 | with distinct labels, `img_map[labels[i]]` is the i-th image |
| Rasters.RasterSplit | afolu/assets/large/transitions.py:52-77 | `raster_split` at one pixel: the errors of splitting on '\|', of the year pair, of splitting the labels on '-', then the `KeyError` of `img_map` for the start and then the end label, in that order; otherwise `And` of the start image in the start band and the end image in the end band |
| Rasters.RasterSplitOfKey | afolu/assets/large/transitions.py:52-77 | the key "S-E\|Y1_Y2" of two taxonomy labels gives a pixel that is set exactly when S's image is set at b(Y1 − 1999) and E's image is set at b(Y2 − 1999) |
| Rasters.LabelYearRaster | afolu/assets/large/areas.py:41-58 | the large area raster at one pixel: the errors of splitting on '\|', of the year's `int`, then the `KeyError` of `img_map`; otherwise the label's image at the year's band |
| Rasters.LabelYearRasterOfKey | afolu/assets/large/areas.py:41-58 | the key "label\|year" gives that label's image at band b(year − 1999) |
| Rasters.RasterInputKeys | afolu/assets/large/transitions.py:24-28 | the grasslands input reads the merged grassland mask; every other label reads its own class mask |
| Reductions.ReducedToTable | afolu/assets/small/common.py:19-31 | no response is a `TypeError`, and no groups an `AttributeError`; otherwise the entries are sorted by id and are a permutation of the groups' (id, sum / 1e6) |
| Reductions.ReducedEntries | afolu/assets/small/common.py:20-31 | one entry per group: every group's (id, sum / 1e6) is an entry, and every entry comes from a group |
| Reductions.ReducedLookup | afolu/assets/small/common.py:20-31 | with distinct ids, each group's id looks up that group's sum divided by 1e6 |
| Reductions.IdsStayDistinct | afolu/assets/small/common.py:24-31 | sorting repeats no id when the groups did not |
| Sorting.SortByKey | afolu/assets/small/common.py:31 | `sort_index()` orders the entries by id and keeps exactly the same entries |
| Sorting.SortedSet | afolu/assets/small/transitions.py:158-159 | `sorted(set(s))` is strictly ascending and holds exactly the elements of `s` |
| Sorting.StrictlySortedUnique | afolu/assets/small/transitions.py:158-159 | two strictly sorted sequences with the same elements are equal |
| Frames.Pivot | afolu/assets/small/transitions.py:147 | `pivot_table` on given row and column labels: one cell per (row, column), holding the mean of the values recorded at that pair, or NaN where none is |
| Frames.PivotLabels | afolu/assets/small/transitions.py:147 | the pivot whose rows are the records' distinct start labels and whose columns are their distinct end labels, both sorted |
| Frames.FillNa | afolu/assets/small/transitions.py:148 | `fillna(v)`: the same labels, every NaN cell replaced by `v` and every present cell kept |
| Frames.AddZeroRow | afolu/assets/small/transitions.py:152-153 | `out.loc[label] = 0` for a new label: the row appended after the others, with a 0 in every column |
| Frames.AddZeroColumn | afolu/assets/small/transitions.py:155-156 | `out[label] = 0` for a new label: the column appended after the others, with a 0 in every row |
| Frames.PivotAt | afolu/assets/small/transitions.py:147 | a pivot cell is the mean of the values recorded at its labels, NaN for none |
| Frames.PivotLabelsMembers | afolu/assets/small/transitions.py:147 | the pivot's rows and columns are exactly the records' start and end labels |
| Frames.PivotLabelsAt | afolu/assets/small/transitions.py:147 | a record's labels are labels of the pivot, and the cell there is the mean of the records at them |
| Frames.PivotYears | afolu/assets/small/areas.py:119 | the label×year pivot's rows and columns are sorted and are exactly the records' labels and year offsets |
| Frames.MatchesSingle | afolu/assets/large/transitions.py:123 | when exactly one record sits at a cell, the mean there is its value |
| Frames.FillNaAt | afolu/assets/small/transitions.py:148 | `fillna(v)` keeps every present value and puts `v` where the cell was NaN |
| Frames.Divide | afolu/assets/small/areas.py:120 | `divide(d)` divides every present cell by `d` and keeps NaN cells and labels |
| Frames.DivideColumns | afolu/assets/small/areas.py:135 | `div(sum(axis=0), axis=1)` divides each cell by its column's NaN-skipping sum, giving NaN for a zero sum (pandas gives ±inf for a non-zero cell there, see Left out) |
| Frames.ZeroSumColumn | afolu/assets/small/areas.py:133-135 | a column of non-negative areas whose NaN-skipping sum is 0 holds only zeros, so pandas' division there is 0 / 0, which is NaN |
| Frames.ColumnsSumToOne | afolu/assets/small/areas.py:133-135 | after the column division, every column whose sum was not zero sums to 1 |
| Frames.FractionBounds | afolu/assets/small/areas.py:133-135 | in a column of non-negative areas with a non-zero sum, every fraction lies in [0, 1] |
| Frames.AddZeroRowAt | afolu/assets/small/transitions.py:152-153 | `out.loc[label] = 0` keeps every existing cell and makes every new cell 0 |
| Frames.AddZeroColumnAt | afolu/assets/small/transitions.py:155-156 | `out[label] = 0` keeps every existing cell and makes every new cell 0 |
| Frames.SortLabels | afolu/assets/small/transitions.py:158-159 | after sorting, rows and columns are strictly ascending and are the same labels as before |
| Frames.SortLabelsAt | afolu/assets/small/transitions.py:158-159 | sorting moves cells but changes none: each cell keeps its labels |
| TransitionTables.GroupRecord | afolu/assets/small/transitions.py:133-138 | a group decodes exactly when the loaded map holds its code; the record then carries the decoded pair and the group's area |
| TransitionTables.DecodedRecords | afolu/assets/small/transitions.py:131-138 | the rows exist exactly when every group's code is in the map (else a `KeyError`), one row per group in order |
| TransitionTables.TransitionRecords | afolu/assets/small/transitions.py:131-138 | the row-appending loop computes the decoded rows, failing at the first unknown code |
| TransitionTables.DecodedInLabels | afolu/assets/small/transitions.py:135 | every code the written map knows decodes to two taxonomy labels |
| TransitionTables.AddMissing | afolu/assets/small/transitions.py:151-156 | after the label loop, rows and columns are the old labels together with every taxonomy label |
| TransitionTables.AddMissingLabels | afolu/assets/small/transitions.py:151-156 | the loop that grows the frame in place computes the label fill |
| TransitionTables.AddMissingAt | afolu/assets/small/transitions.py:151-156 | the label fill changes no existing cell, and every cell it adds is 0 |
| TransitionTables.Completed | afolu/assets/small/transitions.py:140-159 | the pivot of the rows, zero-filled, with every taxonomy label added as a zero row and column, then sorted by rows and by columns |
| TransitionTables.SmallTableOf | afolu/assets/small/transitions.py:127-159 | `transition_table` from the response: `None` is the `ValueError`; an unknown code is the map's `KeyError`; no group at all is the `KeyError("label")` of `df["label"]`; otherwise the completed table |
| TransitionTables.TransitionTable | afolu/assets/small/transitions.py:111-165 | `transition_table` after the reducer call computes the model's table: decode, pivot, zero-fill, label fill, sort |
| TransitionTables.SmallTableOk | afolu/assets/small/transitions.py:127-138 | no response is `ValueError("No data returned from reduceRegion.")`; otherwise the table exists exactly when there is a group and every group's code decodes |
| TransitionTables.SmallTableIsCompleted | afolu/assets/small/transitions.py:140-159 | a table that exists is the completed pivot of the decoded rows |
| TransitionTables.CompletedLabels | afolu/assets/small/transitions.py:140-159 | rows and columns are strictly sorted and are the taxonomy labels together with the labels that occur |
| TransitionTables.CompletedAt | afolu/assets/small/transitions.py:140-159 | every cell holds the mean area recorded at its labels, or 0 where there is none |
| TransitionTables.SmallTableLabels | afolu/assets/small/transitions.py:151-159 | with the written label map, rows and columns are exactly `sorted(LABEL_LIST)` |
| TransitionTables.DecodedMatches | afolu/assets/small/transitions.py:135-145 | a row has start labels[i] and end labels[j] exactly when its group's code is the code of (i, j); its area is the group's sum |
| TransitionTables.SmallTableCell | afolu/assets/small/transitions.py:131-159 | with distinct group codes, cell (labels[i], labels[j]) is the area reported for the code of (i, j), or 0 when no group has that code |
| TransitionTables.KeyLabels | afolu/assets/large/transitions.py:112-113 | split the key on '\|' and its first part on '-', each a two-way unpacking that is a `ValueError` otherwise |
| TransitionTables.KeyLabelsOfKey | afolu/assets/large/transitions.py:112-113 | a key "S-E\|years" of labels holding neither '-' nor '\|' splits back into (S, E) |
| TransitionTables.ValueRecords | afolu/assets/large/transitions.py:110-120 | the rows exist exactly when every key splits (else a `ValueError`); there is one (start, end, value) row per item, and the years are dropped |
| TransitionTables.LargeTableOf | afolu/assets/large/transitions.py:109-125 | the large regions' table: the first key that does not split is a `ValueError`; an empty value map is the `KeyError("total_area")` of the pivot; otherwise the pivot of the rows with NaN replaced by 0 |
| TransitionTables.LargeTransitionTable | afolu/assets/large/transitions.py:109-125 | the appending loop and the pivot compute the large regions' table |
| TransitionTables.LargeTableLabels | afolu/assets/large/transitions.py:121-125 | rows and columns are sorted and are exactly the start and end labels of the keys: no missing labels are added |
| TransitionTables.LargeTableCell | afolu/assets/large/transitions.py:121-125 | when a label pair occurs once in the value map, its cell is that item's value |
| TransitionTables.LargeTableAbsent | afolu/assets/large/transitions.py:121-125 | a cell whose pair no key names holds 0, by `fillna(0)` |
| AreaTables.PyIndex | afolu/assets/small/areas.py:94 | `LABEL_LIST[k]` succeeds exactly for −N ≤ k < N, else `IndexError` |
| AreaTables.AreaRows | afolu/assets/small/areas.py:89-97 | the rows exist exactly when every non-background group indexes the label list, else `IndexError` |
| AreaTables.AreaTableOf | afolu/assets/small/areas.py:85-99 | `area_table` from the response: `None` is the `ValueError`; a non-background code `t` for which `LABEL_LIST[t − 1]` is out of range is the `IndexError`; no row is the `KeyError("label")` of `set_index`; otherwise one (label, area) row per non-background group |
| AreaTables.AreaTable | afolu/assets/small/areas.py:73-99 | the row-appending loop computes the small region's `area_table` |
| AreaTables.AreaRowsCover | afolu/assets/small/areas.py:89-97 | with codes in 0..N, every non-background group gives the row (labels[t − 1], area) |
| AreaTables.AreaRowsFrom | afolu/assets/small/areas.py:89-97 | with codes in 0..N, every row comes from a non-background group, decoded |
| AreaTables.AreaTableDecodes | afolu/assets/small/areas.py:85-99 | with codes in 0..N, the table exists exactly when some group is not background (else the `KeyError` of `set_index("label")`), and it holds every decoded row |
| AreaTables.AreaRowOfPixel | afolu/assets/small/areas.py:55-94 | `area_table` inverts the raster's i + 1 code: a pixel's group gives the row of the last label whose image is set, and background gives no row |
| AreaTables.YearRecords | afolu/assets/small/areas.py:113-115 | every row of a yearly table is tagged with the column `int(year) − 2000` |
| AreaTables.MergedRecords | afolu/assets/small/areas.py:112-118 | the merge exists exactly when every yearly key parses as an int, else `ValueError` |
| AreaTables.SmallMergedOf | afolu/assets/small/areas.py:111-121 | the small `area_table_merged`: no table is the `ValueError` of `pd.concat([])`; a year that is not an `int` is a `ValueError`; otherwise the label × year pivot divided by 10 000 |
| AreaTables.SmallAreaTableMerged | afolu/assets/small/areas.py:111-121 | the tagging loop, `concat`, the pivot and the ÷ 10 000 compute the merged table |
| AreaTables.MergedMatches | afolu/assets/small/areas.py:113-119 | with distinct years and a name listed once in its year, exactly one value sits at (name, year − 2000) |
| AreaTables.SmallMergedCell | afolu/assets/small/areas.py:111-121 | the merged table holds, at (name, year − 2000), that year's area divided by 10 000 |
| AreaTables.PivotYearsAt | afolu/assets/small/areas.py:119 | a record's labels are labels of the year pivot, and the cell there is the mean of the records at them |
| AreaTables.KeyRecord | afolu/assets/large/areas.py:99-105 | an item parses exactly when its key splits on '\|' and the year is an int, else `ValueError` |
| AreaTables.KeyRecordOfKey | afolu/assets/large/areas.py:99-105 | the key "name\|year" gives the row (name, year − 2000, area / 10 000) |
| AreaTables.LargeRecords | afolu/assets/large/areas.py:97-106 | the rows exist exactly when every item parses, one row per item in order |
| AreaTables.LargeAreaTableOf | afolu/assets/large/areas.py:96-109 | the large area table: the first item that does not parse is a `ValueError`; an empty value map is the `KeyError("area")` of the pivot; otherwise the label × year pivot of the rows |
| AreaTables.LargeAreaTable | afolu/assets/large/areas.py:96-109 | the appending loop and the pivot compute the large regions' area table |
| AreaTables.LargeAreaCell | afolu/assets/large/areas.py:96-109 | when one item names (name, year), the table has row `name` and column year − 2000, and the cell there is that area / 10 000 |
| AreaTables.LargeRecordsSingle | afolu/assets/large/areas.py:98-109 | the only row at (name, c) is the mean there |
| AreaTables.LargeAreaAbsent | afolu/assets/large/areas.py:107-109 | a cell no item names is NaN: this table has no zero fill |
| AreaTables.LargeFracColumn | afolu/assets/large/areas.py:124-126 | in the fraction table, a year column with a positive area sums to 1 and holds fractions in [0, 1] |
| MergedAreas.Ids | afolu/assets/areas.py:63-66 | the ids of a yearly series are its index, in order |
| MergedAreas.SortedKeys | afolu/assets/areas.py:62 | `sorted(area_table_map.keys())` is strictly ascending and holds exactly the map's keys |
| MergedAreas.SortedKeyPresent | afolu/assets/areas.py:62-64 | every sorted key is in the map, so `area_table_map[key]` is its series |
| MergedAreas.CollectSeries | afolu/assets/areas.py:62-69 | the loop collects, at position i, the series that the map holds for the i-th sorted key |
| MergedAreas.SortedSeries | afolu/assets/areas.py:62-69 | series i is the table of the i-th sorted key |
| MergedAreas.AddIds | afolu/assets/areas.py:72 | adding a series' new ids keeps the ids without repeats and gives the union |
| MergedAreas.UnionIds | afolu/assets/areas.py:72 | the index of a concatenation that reindexes repeats no id and holds exactly the ids of the series |
| MergedAreas.MergedOf | afolu/assets/areas.py:56-77 | `area_table_merged` on the table map: no table is the `ValueError` of `pd.concat([])`; then the errors of the concatenation; then the relabelled frame with its "null" row dropped, or `KeyError("null")` when there is none |
| MergedAreas.AreaTableMerged | afolu/assets/areas.py:56-77 | the collecting loop followed by concat, relabel and drop computes the national merged table |
| MergedAreas.LabelOfId | afolu/assets/areas.py:59-74 | `label_map` sends 0 to "null" and 1..N to the taxonomy labels; any other id becomes NaN |
| MergedAreas.Concat | afolu/assets/areas.py:72 | `pd.concat(out, axis=1)`: identical indexes are kept with the cells side by side; otherwise a series with a repeated id is pandas' `ValueError`, and without one every series is reindexed on the union of the ids, NaN where it lacks one |
| MergedAreas.Relabel | afolu/assets/areas.py:73-75 | `reset_index`, `map(label_map)`, `set_index("label")`: every row label is the label of its id, in the same order, with the cells unchanged |
| MergedAreas.ConcatShaped | afolu/assets/areas.py:72 | a concatenation has one cell per row and column |
| MergedAreas.ConcatIndex | afolu/assets/areas.py:72 | the concatenation's rows are the ids that some year reports, without repeats when no year repeats an id |
| MergedAreas.ConcatAt | afolu/assets/areas.py:63-72 | with no year repeating an id, the concatenation exists, and at (id, i) it holds year i's area for that id, or NaN |
| MergedAreas.RelabelAt | afolu/assets/areas.py:73-75 | relabelling keeps the cells of a row whose label no other row receives |
| MergedAreas.DropNull | afolu/assets/areas.py:76 | `drop(index=["null"])`: the frame without its "null" rows, or `KeyError("null")` when it has none |
| MergedAreas.DropRows | afolu/assets/areas.py:76 | dropping a label keeps the columns and exactly the other rows |
| MergedAreas.DropRowsAt | afolu/assets/areas.py:76 | dropping rows labelled `x` keeps every other row's cells |
| MergedAreas.RelabelIndex | afolu/assets/areas.py:73-75 | the rows after relabelling are the labels of the ids |
| MergedAreas.MergedRowsFrom | afolu/assets/areas.py:71-77 | every row of the merged table is the label of an id that some year reports, and no row is "null" |
| MergedAreas.MergedRowOfId | afolu/assets/areas.py:71-77 | the label of every reported id is a row unless it is "null" |
| MergedAreas.MergedRowsAreLabels | afolu/assets/areas.py:71-77 | when every reported id is background or a taxonomy code, every row is a taxonomy label |
| MergedAreas.MergedCell | afolu/assets/areas.py:56-77 | column i is the year of the i-th sorted key: at row labels[id − 1] it holds that year's area for the id, or NaN when that year lacks it |
| MergedAreas.MergedNoTables | afolu/assets/areas.py:72 | the result is the `ValueError` of `pd.concat([])` exactly when there is no yearly table |
| MergedAreas.MergedRepeatedIds | afolu/assets/areas.py:72 | the result is pandas' `ValueError("cannot reindex on an axis with duplicate labels")` exactly when the years' ids differ and some year repeats an id |
| MergedAreas.MergedNeedsBackground | afolu/assets/areas.py:72-76 | with ids that do not repeat, the table exists exactly when some year reports background id 0; otherwise the `drop` raises `KeyError("null")` |
| MergedAreas.NullRowOfBackground | afolu/assets/areas.py:59-74 | only id 0 is labelled "null" when no taxonomy label is "null" |
| MergedAreas.MergedFracColumn | afolu/assets/areas.py:80-83 | in `area_table_merged_frac`, a column with a positive area sums to 1 and holds fractions in [0, 1] |
| Bbox.LargestPart | afolu/assets/bbox.py:35-40 | no part is kept exactly when no part has a positive area; a kept part is the first of the largest parts, and its area is at least every part's area |
| Bbox.LargestExists | afolu/assets/bbox.py:35-40 | when some part has a positive area, a first largest part exists, so the loop always finds one |
| Bbox.CheckPolygon | afolu/assets/bbox.py:49-51 | the check passes exactly for a polygon; anything else is `TypeError("Expected Polygon, got …")` |
| Bbox.SimplifiedPolygon | afolu/assets/bbox.py:47-51 | simplifying no polygon gives None, which fails the check as `NoneType`; otherwise the check is applied to the simplified part |
| Bbox.BboxAmazon | afolu/assets/bbox.py:34-51 | another geometry type raises `TypeError`; a polygon is simplified and checked; for a multipolygon, the first largest part is simplified and checked, and there is a `NoneType` error when no part has a positive area |
| Bbox.BboxMexico | afolu/assets/bbox.py:71-82 | a geometry without `geoms` raises `AttributeError`; otherwise, as for a multipolygon above |
| Bbox.EeBbox | afolu/assets/bbox.py:113-122 | the stored geometry must be a polygon (else `TypeError`), and the Earth Engine polygon is its exterior ring |

## Left out

- Earth Engine calls: `reduceRegion`, `pixelArea`, `getInfo`, `clip`, collection loading and
  `ee.Image.random`. They run on Google's servers. The reducer's response is a parameter
  (`None` or a list of groups), and the forest and random masks are per-pixel inputs.
- Rasters are modelled at one pixel. Whole-image operations are the same computation at
  every pixel.
- Dagster wiring: decorators, asset inputs, partition definitions other than the year-pair
  list, resources and definitions. The partition key of a run is a parameter.
- `LABEL_LIST` and the class code lists: `afolu.assets.constants` and
  `afolu/resources.py` are not part of this model. Both are parameters.
- The normaliser and cube factories (`transition_table_fixed_factory`,
  `transition_table_frac_factory`, `transition_cube_factory`) and `area_table_factory`
  (the national reducer asset) are not part of this model, because their code is not
  available. `reduce_image_by_area` is an Earth Engine call.
- `afolu/assets/transitions.py`, `afolu/assets/load.py`, `generate.py` and
  `data_functions.py`: an unfinished duplicate of the small-region fold, collection
  loading, and glue over other libraries and files.
- Floating point: areas and divisions are exact reals, and `10 ** ceil(log10 N)` is the
  least power of ten at least N.
- Geometry: shapely's union, simplification and area, rasterio's shapes, and CRS
  reprojection. Simplification is a function parameter, and a polygon carries its area and
  exterior ring. `bbox_small` only builds a box from bounds and is left out.
- File and JSON I/O: the managers' reading and writing. Only the paths they compute are
  modelled. The JSON round trip of the label map is modelled as turning integer keys into
  their decimal strings.
- Decimal.ParseInt: Python's `int()` also accepts a leading '+', surrounding whitespace and
  underscores between digits; the model's `int` accepts only an optional minus sign
  followed by digits. This matters for the year-pair partition keys "2000_2001" …
  "2021_2022": Python reads "2000_2001" as 20002001, while the model returns a
  `ValueError` for every such key (`Partitions.KeyIsNoInt`). So where Python would go on
  with a nonsense year, the model fails:
  - `Rasters.AreaRaster` returns the `ValueError` where Python selects band "b20000002";
  - `Rasters.LabelYearRaster` does the same for a key "label|2000_2001";
  - `AreaTables.MergedRecords` returns the `ValueError` where Python tags the rows with
    year column 20000001;
  - `AreaTables.KeyRecord` returns the `ValueError` where Python gives the row the year
    column 20000001.
  For keys whose year is plain decimal, the model and Python agree.
- Rasters.FoldRow: the `KeyError` for a label pair missing from the inverse map carries
  the key as the string "start-end"; Python's key is the tuple (start, end).
- Frames.DivideColumns: a column whose NaN-skipping sum is 0 gives NaN in every cell.
  pandas gives NaN only for a 0 cell (0 / 0); a non-zero cell over a zero sum is ±inf,
  which the model has no value for. On columns of non-negative areas, which is what the
  pipeline divides, the two agree: `Frames.ZeroSumColumn` proves that a zero sum of
  non-negative cells means every present cell is 0.
- Bbox.CheckPolygon: the `TypeError` message names the class by its short name, not by
  Python's `<class '…'>` rendering of the type. The other error messages are the source's
  strings; a pandas error is named by its exception type and the missing key.
- Bbox.BboxMexico: geometry types other than polygons and multipolygons that also have
  `geoms` are not modelled. Every geometry that is not a multipolygon is treated as lacking
  `geoms`.
- MergedAreas.Concat: when the yearly indexes differ, the row order is the order of first
  appearance of the ids. No lemma depends on that order; cells are stated by label.
- The `set_index("label")` at the start of `area_table_frac`, `area_table_merged_frac` and
  the large `table_frac` relies on the dataframe manager turning the stored index back into
  a "label" column. That manager is not part of this model, so the fraction lemmas apply
  the column division to the table as it was built.
- The `isinstance` checks at the end of `transition_table` and `reduced_to_table` cannot
  fail on the frames the model builds, so they are not modelled.
