# Liquid-handling simulator of synbiopython `lab_automation`, in Dafny

This project models the in-memory liquid-handling simulator of synbiopython's
`lab_automation` package and proves properties of the model:

- **plate coordinates** (`containers/helper_functions.py`): row names and
  numbers, well names and coordinates, and the linear index of a well in row
  or column order;
- **well content** (`containers/WellContent.py`): a volume and an ordered
  dict of component quantities, with a concentration query that never divides
  by zero;
- **wells** (`containers/Well.py`): adding and subtracting content after the
  capacity and volume checks, the tree of sources, the order of wells;
- **plates** (`containers/Plate.py`, `containers/builtin_containers.py`): the
  grid of wells built once and keyed by name, the built-in formats and their
  capacities, the trough whose eight wells share one content, and the
  queries (unique match, rows, columns, filtering, grouping, iteration,
  indices);
- **transfers** (`picklist/Transfer.py`): the three checks, then the
  proportional move of every component and the record of the transfer in the
  destination's sources;
- **pick lists** (`picklist/PickList.py`): adding, in-place simulation
  without rollback, restriction, stable sorting, the total volume, splitting
  into dispenses no larger than a maximum, concatenation and merging.

Modules, one per file: `Errors` (errors.dfy: the exceptions raised, and the
`Result`/`Outcome` types that carry them), `Seqs` (seqs.dfy: sums, filters,
joins, the string order and the stable insertion sort used by `sorted`),
`Coordinates` (coordinates.dfy), `Quantities` (quantities.dfy: the ordered
dict of quantities and the add and subtract loops), `Content`
(content.dfy: class `WellContent`), `Containers` (containers.dfy: classes
`Well` and `Plate`, datatype `PlateKind`; one module because a well points to
its plate and a plate holds its wells), `Transfers` (transfers.dfy: class
`Transfer`) and `PickLists` (picklists.dfy: class `PickList`).

How the source's objects appear:

- `WellContent`, `Well`, `Plate`, `Transfer` and `PickList` are classes whose
  fields the methods update. A well holds a reference to its content, so the
  wells of a trough alias one `WellContent` object.
- A Python dict of quantities is a `Dict`: its keys in insertion order plus a
  map. Insertion order matters: `concentration()` with no component uses the
  first key, and a key that is popped and re-added moves to the end.
- Volumes and quantities are exact `real`s.
- A failing operation returns a `Result` or `Outcome` naming the Python
  exception it raises: `TransferError`, `ValueError`, `KeyError`,
  `IndexError`, `AttributeError`, `TypeError` or `ZeroDivisionError`.
- `compute_rows_columns` rounds `sqrt(n/6)·2` and `sqrt(n/6)·3` with exact
  integer bounds instead of floating point. The halfway cases cannot occur.
- The built-in formats are the constructors of `PlateKind`. Each fixes the
  rows, columns and well capacity:
  - Plate4ti0960: 150e-6 L;
  - Plate4ti0130: 1900e-6 L;
  - the two Labcyte Echo plates: none, because their inner `PlateWell`
    classes are never installed as `well_class`.
- Applying a transfer is specified by a pure function on snapshots of the two
  contents (`Transfers.ApplyToContents`); the `Apply` method is proved to
  reach that function's result.
- Simulating a pick list is specified by `PickLists.RunSteps` on a map from
  each content object to its snapshot.
  - Wells that share content (a trough) share one entry of that map.
  - The `Simulate` method is proved to reach the state `RunSteps` computes,
    and to record each applied transfer in its destination's sources.

## Model

| member | source | states |
|---|---|---|
| Coordinates.RoundSqrtFrom | synbiopython/lab_automation/containers/helper_functions.py:8-10 | the result r is `round(sqrt(num/den))` stated exactly: den·(2r+1)² > 4·num and, unless r = 0, den·(2r−1)² ≤ 4·num |
| Coordinates.RoundSqrtUnique | synbiopython/lab_automation/containers/helper_functions.py:8-10 | a number meeting both bounds is the rounded root, so the rounding is determined by them |
| Coordinates.ComputeRowsColumns | synbiopython/lab_automation/containers/helper_functions.py:6-11 | fails (the ValueError of `math.sqrt`) exactly when the well count is negative |
| Coordinates.RowsColumnsOfStandardPlate | synbiopython/lab_automation/containers/helper_functions.py:6-11 | 6k² wells give (2k, 3k) rows and columns, for every k |
| Coordinates.BuiltinPlateDimensions | synbiopython/lab_automation/tests/test_helper_functions.py:11-16 | 48→(6,8), 96→(8,12), 384→(16,24), 1536→(32,48) |
| Coordinates.EightWellsReadAsTwoByThree | synbiopython/lab_automation/containers/helper_functions.py:6-11 | 8 wells are read as 2 rows and 3 columns |
| Coordinates.DimensionsPositive | synbiopython/lab_automation/containers/helper_functions.py:6-11 | every positive well count gives at least one row and one column |
| Coordinates.IndexOfCorrect | synbiopython/lab_automation/containers/helper_functions.py:19 | the substring search behind `str.index` returns the first position where the name occurs, and fails only when it occurs nowhere |
| Coordinates.LetterNumber | synbiopython/lab_automation/containers/helper_functions.py:18-19 | a single capital letter maps to its alphabet position 1..26 |
| Coordinates.NotALetter | synbiopython/lab_automation/containers/helper_functions.py:18-21 | any other single character raises ValueError |
| Coordinates.TwoLetterNumber | synbiopython/lab_automation/containers/helper_functions.py:16-17 | a two-letter name XY maps to 26·X + Y |
| Coordinates.RowNameExamples | synbiopython/lab_automation/tests/test_helper_functions.py:19-24 | A→1, E→5, AA→27, AE→31 |
| Coordinates.RowNameToNumber | synbiopython/lab_automation/containers/helper_functions.py:14-21 | fails only with ValueError; a name it reads gives 1..26 for one letter and 1..702 for two |
| Coordinates.NumberToRowName | synbiopython/lab_automation/containers/helper_functions.py:24-28 | succeeds exactly when n ≥ −25 (negative indexing reaches back to the first letter; below that it is an IndexError) |
| Coordinates.RowNameIsUpper | synbiopython/lab_automation/containers/helper_functions.py:24-28 | every name produced is non-empty and made of capital letters |
| Coordinates.SingleLetterName | synbiopython/lab_automation/containers/helper_functions.py:28 | 1..26 give the one-letter names A..Z, which read back to the same number |
| Coordinates.RowNameRoundTrip | synbiopython/lab_automation/containers/helper_functions.py:14-28 | for 1 ≤ n ≤ 701, reading back the name of n gives n if and only if n ≤ 26 or n is not a multiple of 26 |
| Coordinates.RowNameRoundTripSmall | synbiopython/lab_automation/containers/helper_functions.py:14-28 | reading back the name of n gives n for every 1 ≤ n ≤ 51, which covers every built-in plate |
| Coordinates.RowNameCounterexample | synbiopython/lab_automation/containers/helper_functions.py:24-28 | 52 is named "BZ", which reads back as 78 |
| Coordinates.NumberToRowNameExamples | synbiopython/lab_automation/tests/test_helper_functions.py:27-29 | 1→A, 5→E, 27→AA, 31→AE |
| Coordinates.RowName | synbiopython/lab_automation/containers/helper_functions.py:24-28 | the intended naming (1→A, 26→Z, 27→AA, 702→ZZ) has one letter up to 26 and two letters above |
| Coordinates.RowNameInverse | synbiopython/lab_automation/containers/helper_functions.py:14-28 | the intended naming reads back to n for every 1 ≤ n ≤ 702 |
| Coordinates.RowNameOfLetters | synbiopython/lab_automation/containers/helper_functions.py:16-17 | every pair of capital letters is the intended name of the number it reads as, so the intended naming is onto all one- and two-letter names |
| Coordinates.RowNameOfLetter | synbiopython/lab_automation/containers/helper_functions.py:18-19 | every capital letter is the intended name of the number it reads as |
| Coordinates.RowNameAgrees | synbiopython/lab_automation/containers/helper_functions.py:24-28 | the source's naming equals the intended one wherever it reads back correctly (n ≤ 26 or n not a multiple of 26) |
| Coordinates.Span | synbiopython/lab_automation/containers/helper_functions.py:33 | the length of the longest prefix whose characters match, as the greedy regular-expression groups take it |
| Coordinates.SpanOfPrefix | synbiopython/lab_automation/containers/helper_functions.py:33 | the greedy prefix of a + b is exactly a when a matches and b starts with a non-matching character |
| Coordinates.NatToString | synbiopython/lab_automation/containers/helper_functions.py:40 | `str(column)` for a non-negative column is a non-empty string of digits |
| Coordinates.DecimalOfNatToString | synbiopython/lab_automation/containers/helper_functions.py:31-40 | `int(str(c)) == c`: the decimal digits written read back to the same number |
| Coordinates.WellNameToCoordinates | synbiopython/lab_automation/containers/helper_functions.py:31-34 | a parsed column is never negative |
| Coordinates.ParseWellName | synbiopython/lab_automation/containers/helper_functions.py:31-34 | letters, then digits, then anything not a digit parse as (row of the letters, value of the digits); a bad row name propagates its error |
| Coordinates.CoordinatesToWellName | synbiopython/lab_automation/containers/helper_functions.py:37-40 | succeeds exactly when the row can be named (row ≥ −25) |
| Coordinates.CoordinatesRoundTrip | synbiopython/lab_automation/containers/helper_functions.py:31-40 | naming coordinates and parsing the name back gives the same coordinates, for rows that read back (1..701, not a multiple of 26 above 26) and every column ≥ 0 |
| Coordinates.ParseLetterDigits | synbiopython/lab_automation/containers/helper_functions.py:31-34 | one capital letter followed by digits parses as (letter position, decimal value); leading zeros are accepted |
| Coordinates.GridIndex | synbiopython/lab_automation/containers/helper_functions.py:55-59 | succeeds exactly when the direction is "row" or "column"; any other direction is the ValueError |
| Coordinates.IndexToRowColumn | synbiopython/lab_automation/containers/helper_functions.py:62-71 | succeeds exactly when the plate has at least one well and the direction is valid; an index ≥ 1 then gives a row and a column ≥ 1 |
| Coordinates.IndexToWellName | synbiopython/lab_automation/containers/helper_functions.py:74-85 | succeeds exactly when `index_to_row_column` succeeds (a plate with wells and a valid direction) and the row it gives is at least −25; a lower row, from a very negative index, is the IndexError of naming it; so it always succeeds for an index ≥ 1 on a plate with wells and a valid direction |
| Coordinates.WellNameExampleA1 | synbiopython/lab_automation/tests/test_helper_functions.py:32-44 | A1→(1,1) |
| Coordinates.WellNameExampleC04 | synbiopython/lab_automation/tests/test_helper_functions.py:32-44 | C04→(3,4) |
| Coordinates.WellNameExampleH11 | synbiopython/lab_automation/tests/test_helper_functions.py:32-44 | H11→(8,11) |
| Coordinates.WellNameExampleAC07 | synbiopython/lab_automation/tests/test_helper_functions.py:32-44 | AC07→(29,7) |
| Coordinates.WellNameExampleDigitFirst | synbiopython/lab_automation/containers/helper_functions.py:33 | a name that does not start with a letter makes `re.match` return None, which raises AttributeError |
| Coordinates.WellNameToIndex | synbiopython/lab_automation/containers/helper_functions.py:43-59 | succeeds only for the "row" and "column" directions (IndexExamples96 states that an unknown direction raises ValueError) |
| Coordinates.GridCell | synbiopython/lab_automation/containers/helper_functions.py:62-71 | index→(row, column) succeeds only for the "row" and "column" directions |
| Coordinates.GridCellInGrid | synbiopython/lab_automation/containers/helper_functions.py:62-71 | for 1 ≤ i ≤ rows·columns the cell lies in the grid and the index formula of that direction maps it back to i |
| Coordinates.GridIndexInverse | synbiopython/lab_automation/containers/helper_functions.py:43-71 | for every cell in the grid the index lies in 1..rows·columns and maps back to that cell, in both directions |
| Coordinates.WellNameIndexRoundTrip | synbiopython/lab_automation/containers/helper_functions.py:43-85 | `wellname_to_index(index_to_wellname(i)) == i` for every valid i, both directions and every plate of at most 51 rows |
| Coordinates.IndexExamples96 | synbiopython/lab_automation/tests/test_helper_functions.py:62-75 | A5 on 96 wells is 5 by row and 33 by column; an unknown direction raises ValueError |
| Coordinates.IndexExamplesC6 | synbiopython/lab_automation/tests/test_helper_functions.py:62-75 | C6 is 30/43 on 96 wells and 54/83 on 384 wells |
| Seqs.SumAppend | synbiopython/lab_automation/picklist/PickList.py:132-134 | the sum of a concatenation is the sum of the parts |
| Seqs.FilterMembers | synbiopython/lab_automation/containers/Plate.py:112-122 | `filter` keeps exactly the elements that satisfy the predicate |
| Seqs.FilterMultiset | synbiopython/lab_automation/picklist/PickList.py:113 | `filter` keeps every satisfying element as often as it occurs and drops the others |
| Seqs.FilterOrdered | synbiopython/lab_automation/picklist/PickList.py:113 | `filter` keeps the relative order of the kept elements |
| Seqs.FilterDistinct | synbiopython/lab_automation/containers/Plate.py:67 | filtering a list without repetitions gives one without repetitions |
| Seqs.FilterCount | synbiopython/lab_automation/containers/Plate.py:67-72 | no match, one match and two or more matches are told apart by the length of the filtered list |
| Seqs.FlattenAppend | synbiopython/lab_automation/picklist/PickList.py:149-160 | flattening a concatenation of lists of lists is the concatenation of the flattened parts |
| Seqs.JoinAppend | synbiopython/lab_automation/picklist/PickList.py:42-44 | `"\n".join` of a concatenation is the two joins with one separator between |
| Seqs.LexLeTotal | synbiopython/lab_automation/containers/Well.py:154-155 | string order: any two strings are comparable |
| Seqs.LexLeAntisymmetric | synbiopython/lab_automation/containers/Well.py:154-155 | string order: a ≤ b and b ≤ a only when a = b |
| Seqs.LexLeTransitive | synbiopython/lab_automation/containers/Well.py:154-155 | string order is transitive |
| Seqs.SortByMultiset | synbiopython/lab_automation/picklist/PickList.py:127-130 | `sorted` returns a permutation of its input |
| Seqs.SortBySorted | synbiopython/lab_automation/picklist/PickList.py:127-130 | `sorted` returns its elements in key order |
| Seqs.SortByStable | synbiopython/lab_automation/picklist/PickList.py:127-130 | `sorted` is stable: elements with equal keys keep their original order |
| Seqs.SortByOfSorted | synbiopython/lab_automation/containers/Plate.py:146-148 | sorting an already sorted list changes nothing |
| Seqs.FirstSeenDistinct | synbiopython/lab_automation/containers/Plate.py:137-143 | the keys of the OrderedDict, in first-seen order, have no repetition |
| Seqs.FirstSeen | synbiopython/lab_automation/containers/Plate.py:137-143 | every key listed was seen and every key seen is listed |
| Seqs.MembersOfKey | synbiopython/lab_automation/containers/Plate.py:137-143 | the group of a key holds exactly the items with that key, and it is empty only for a key never seen |
| Seqs.GroupsPartition | synbiopython/lab_automation/containers/Plate.py:137-149 | the groups of all keys seen have sizes adding up to the number of wells |
| Quantities.Empty | synbiopython/lab_automation/containers/WellContent.py:13-14 | an empty quantities dict has no keys |
| Quantities.Set | synbiopython/lab_automation/containers/Well.py:64-66 | assigning a key updates its amount and appends the key only when it is new (dict insertion order) |
| Quantities.Pop | synbiopython/lab_automation/containers/Well.py:81-82 | `pop` removes the key and its amount and keeps the order of the others |
| Quantities.Scale | synbiopython/lab_automation/picklist/Transfer.py:75-78 | scaling keeps the keys in order and multiplies every amount by the factor |
| Quantities.AddOneAt | synbiopython/lab_automation/containers/Well.py:63-66 | adding to one component (absent keys start at 0) changes only that component |
| Quantities.AddItemsAt | synbiopython/lab_automation/containers/Well.py:63-66 | after the first n components are added, each key holds its old amount plus the added one; no other key appears |
| Quantities.AddItemsKeepsOrder | synbiopython/lab_automation/containers/Well.py:63-66 | adding never reorders or removes the keys already present |
| Quantities.AddAllEffect | synbiopython/lab_automation/containers/Well.py:63-66 | adding a whole dict gives the pointwise sum, the union of the keys, and keeps the old keys first |
| Quantities.SubtractItemsStop | synbiopython/lab_automation/containers/Well.py:80-84 | once a component is missing (KeyError), later components are not processed |
| Quantities.SubtractOneAt | synbiopython/lab_automation/containers/Well.py:81-84 | subtracting removes the key when the amounts are equal and decrements it otherwise |
| Quantities.SubtractItemsCompletes | synbiopython/lab_automation/containers/Well.py:80-84 | the loop completes exactly when every component named is present |
| Quantities.SubtractAllEffect | synbiopython/lab_automation/containers/Well.py:80-84 | a completed subtraction removes exactly the keys whose amount equals the subtracted one and decrements the rest |
| Quantities.AddThenSubtract | synbiopython/lab_automation/containers/Well.py:45-84 | subtracting what was just added restores every amount; only keys left at zero disappear |
| Content.ConcentrationOf | synbiopython/lab_automation/containers/WellContent.py:18-28 | returns the default when the quantities are empty, the volume is 0 or the component is absent; otherwise concentration·volume equals the component's quantity; with no component the first key is used |
| Content.SortedComponents | synbiopython/lab_automation/containers/WellContent.py:39-41 | the component names, each exactly once, in sorted order |
| Content.WellContent.constructor | synbiopython/lab_automation/containers/WellContent.py:12-16 | volume as given, and an empty dict when no quantities are given |
| Content.WellContent.ToDict | synbiopython/lab_automation/containers/WellContent.py:30-32 | exposes exactly the current volume and quantities |
| Content.WellContent.MakeEmpty | synbiopython/lab_automation/containers/WellContent.py:34-37 | volume becomes 0 and quantities empty |
| Content.WellContent.Concentration | synbiopython/lab_automation/containers/WellContent.py:18-28 | the default when the quantities are empty, the volume is 0 or the component is absent; otherwise concentration × volume is the amount of the component, the first one listed when none is named |
| Content.WellContent.ComponentsAsString | synbiopython/lab_automation/containers/WellContent.py:39-41 | the listed component names, each as often as listed, in sorted order joined by the separator; "" when there are none |
| Content.ConcentrationScenario | tests/lab_automation/test_wellcontent.py:9-16 | empty and no-volume contents give 0; {5, 10} in 25 give 0.2 (first key), 0.2, 0.4 and 0 for an absent compound |
| Content.OrderedPairAsString | synbiopython/lab_automation/containers/WellContent.py:39-41 | two components whose names are already in order are joined in that order |
| Content.TestMixOrder | tests/lab_automation/test_wellcontent.py:32-33 | the mix of Compound_1 and Compound_2 is written "Compound_1 Compound_2" |
| Containers.ScaledVolume | synbiopython/lab_automation/containers/Well.py:54 | litres are unchanged and the sign of the volume is kept by every unit factor |
| Containers.AddToContent | synbiopython/lab_automation/containers/Well.py:45-66 | fails with KeyError for an unknown unit, TypeError for a missing volume, TransferError for an overflow |
| Containers.AddToContentEffect | synbiopython/lab_automation/containers/Well.py:45-66 | succeeds exactly when the unit is known, a volume is given and no capacity overflow occurs; then the volume grows by the scaled volume when it is positive, each quantity is added, other keys are untouched and the capacity holds |
| Containers.SubtractFromContent | synbiopython/lab_automation/containers/Well.py:68-84 | fails only with TransferError or KeyError |
| Containers.SubtractFromContentEffect | synbiopython/lab_automation/containers/Well.py:68-84 | raises TransferError, changing nothing, exactly when the volume exceeds the current volume; otherwise the volume decreases and the components are subtracted in order, stopping with KeyError at the first one that is missing |
| Containers.Well.constructor | synbiopython/lab_automation/containers/Well.py:21-28 | the given plate, row, column, name and data, no sources, and a fresh empty content |
| Containers.Well.Sharing | synbiopython/lab_automation/containers/builtin_containers.py:100-103 | a well built on a content object shared with other wells |
| Containers.Well.Clone | synbiopython/lab_automation/picklist/PickList.py:63 | the deepcopy of a well: the same place, name, data, capacity and sources, holding the content given |
| Containers.Well.SetCapacity | synbiopython/lab_automation/containers/Well.py:18 | assigning `capacity` on one well changes that well's capacity and no other field or well |
| Containers.Well.Volume | synbiopython/lab_automation/containers/Well.py:30-33 | the well's volume is its content's volume |
| Containers.Well.View | synbiopython/lab_automation/containers/Well.py:21-33 | a snapshot of the well's name, position, data, volume and quantities |
| Containers.Well.AddContent | synbiopython/lab_automation/containers/Well.py:45-66 | on success the content becomes the result of AddToContent; on failure it is unchanged |
| Containers.Well.AddQuantities | synbiopython/lab_automation/containers/Well.py:63-66 | the loop over components leaves the volume alone and yields the pointwise sum |
| Containers.Well.AddQuantity | synbiopython/lab_automation/containers/Well.py:64-66 | one component is added, with an absent key starting at 0 |
| Containers.Well.SubtractContent | synbiopython/lab_automation/containers/Well.py:68-84 | the outcome and new content are those of SubtractFromContent |
| Containers.Well.SubtractQuantities | synbiopython/lab_automation/containers/Well.py:80-84 | the loop over components yields SubtractAll and reports whether it completed |
| Containers.Well.SubtractQuantity | synbiopython/lab_automation/containers/Well.py:81-84 | one component is removed when equal and decremented otherwise |
| Containers.Well.EmptyCompletely | synbiopython/lab_automation/containers/Well.py:86-99 | quantities empty, volume 0, and the well is empty |
| Containers.Well.IsEmpty | synbiopython/lab_automation/containers/Well.py:96-99 | true exactly when the content's volume is 0, whatever components are still listed |
| Containers.Well.SourcesTree | synbiopython/lab_automation/containers/Well.py:35-43 | the traversal is never empty and always ends with the well itself |
| Containers.TreeOf | synbiopython/lab_automation/containers/Well.py:37-42 | every non-well source is yielded |
| Containers.TreeOfLeaves | synbiopython/lab_automation/containers/Well.py:37-42 | sources that are all non-wells are yielded as they are |
| Containers.SourcesTreeLeaves | synbiopython/lab_automation/containers/Well.py:35-43 | direct non-well sources occur in the traversal, which ends with the well; with only non-well sources it is those sources then the well |
| Containers.TreeOfAppend | synbiopython/lab_automation/containers/Well.py:37-42 | the loop over sources distributes over concatenation: the tree of a + b is the tree of a, then the tree of b |
| Containers.SubtreeInPlace | synbiopython/lab_automation/containers/Well.py:35-43 | depth first: source i yields one contiguous block (its own tree for a source well within the depth bound, itself otherwise) between the blocks of the sources before and after it, and the well comes last |
| Containers.TreeOfMembers | synbiopython/lab_automation/containers/Well.py:37-42 | a source is yielded exactly when it is one of the sources or, a level deeper, in the tree of one of their wells |
| Containers.SourcesTreeMembers | synbiopython/lab_automation/containers/Well.py:35-43 | the traversal holds exactly the wells reachable through sources within the depth bound and every source of those wells |
| Containers.IsAfterStrict | synbiopython/lab_automation/containers/Well.py:135-152 | `is_after` is irreflexive and asymmetric, and it succeeds exactly when both indices can be computed |
| Containers.Well.IndexInPlate | synbiopython/lab_automation/containers/Well.py:135-137 | succeeds exactly when the direction is valid and the well's name parses |
| Containers.Well.IsAfter | synbiopython/lab_automation/containers/Well.py:139-152 | succeeds exactly when both indices can be computed, and a well is never after itself |
| Containers.Well.Repr | synbiopython/lab_automation/containers/Well.py:101-102 | the string opens with "(", closes with ")", and ends with "-" followed by the well's name |
| Containers.Well.Less | synbiopython/lab_automation/containers/Well.py:154-155 | irreflexive, and a well below another has a repr that is not above the other's in string order |
| Containers.WellOrder | synbiopython/lab_automation/containers/Well.py:154-155 | `__lt__` on well names is a strict order: irreflexive, transitive, asymmetric |
| Containers.CellNameInjective | synbiopython/lab_automation/containers/helper_functions.py:37-40 | distinct cells with rows 1..51 have distinct well names |
| Containers.RowMajor | synbiopython/lab_automation/containers/Plate.py:47-48 | the cells of the nested row/column loop, each in the grid, rows·columns of them |
| Containers.ColumnMajor | synbiopython/lab_automation/containers/Plate.py:201-202 | the cells ordered by (column, row), each in the grid |
| Containers.RowMajorSorted | synbiopython/lab_automation/containers/Plate.py:199-200 | row-major order is strictly increasing in (row, column) |
| Containers.ColumnMajorSorted | synbiopython/lab_automation/containers/Plate.py:201-202 | column-major order is strictly increasing in (column, row) |
| Containers.RowMajorCovers | synbiopython/lab_automation/containers/Plate.py:47-48 | every cell of the grid is visited by the row-major loop |
| Containers.ColumnMajorCovers | synbiopython/lab_automation/containers/Plate.py:201-202 | every cell of the grid occurs in column-major order |
| Containers.RowMajorColumn | synbiopython/lab_automation/containers/Plate.py:86-95 | the cells of one column, in row order, are exactly those of that column, or none outside the grid |
| Containers.RowMajorRow | synbiopython/lab_automation/containers/Plate.py:97-110 | the cells of one row, in row order, are exactly those of that row, or none outside the grid |
| Containers.RowMajorAt | synbiopython/lab_automation/containers/helper_functions.py:62-66 | the i-th cell in row order is (i div columns + 1, i mod columns + 1) |
| Containers.ColumnMajorAt | synbiopython/lab_automation/containers/helper_functions.py:67-68 | the i-th cell in column order is (i mod rows + 1, i div rows + 1) |
| Containers.RowMajorIndex | synbiopython/lab_automation/containers/helper_functions.py:62-71 | index i by row is the i-th cell of row-major order |
| Containers.ColumnMajorIndex | synbiopython/lab_automation/containers/helper_functions.py:62-71 | index i by column is the i-th cell of column-major order |
| Containers.GridCellOfIndex | synbiopython/lab_automation/containers/helper_functions.py:62-71 | `index_to_row_column` as arithmetic on i − 1, in both directions |
| Containers.KeptKeys | synbiopython/lab_automation/containers/Plate.py:137-145 | the first-seen keys, without None when `ignore_none` is set, each once |
| Containers.GroupOrderSpec | synbiopython/lab_automation/containers/Plate.py:144-149 | fails (TypeError: None is not comparable with a string) exactly when sorting with a None key among others; otherwise the keys are distinct, exactly those seen, in first-seen order or sorted |
| Containers.SortedKeys | synbiopython/lab_automation/containers/Plate.py:146-148 | sorting distinct keys keeps them distinct and the same set, now in order |
| Containers.FileByKey | synbiopython/lab_automation/containers/Plate.py:137-143 | the OrderedDict loop files every well under its key, keys in first-seen order |
| Containers.FileStep | synbiopython/lab_automation/containers/Plate.py:139-143 | one step either opens a new group or appends to an existing one |
| Containers.GroupWells | synbiopython/lab_automation/containers/Plate.py:137-149 | the loop followed by the key selection computes Grouping |
| Containers.GroupsReady | synbiopython/lab_automation/containers/Plate.py:144-149 | the filed dict, after dropping None and sorting, gives Grouping |
| Containers.ListGroups | synbiopython/lab_automation/containers/Plate.py:149 | the list comprehension pairs each key with its group |
| Containers.GroupsOf | synbiopython/lab_automation/containers/Plate.py:149 | pairs each key with exactly the wells of that key |
| Containers.GroupingSpec | synbiopython/lab_automation/containers/Plate.py:124-149 | groups have distinct keys and are non-empty, each holds exactly its key's wells, every kept well is in its group; without options the group sizes add up to the number of wells |
| Containers.GroupedByMissingField | tests/lab_automation/test_plate.py:53-54 | with no data field, all wells of the plate fall into one None group |
| Containers.PlateKind.NumRows | synbiopython/lab_automation/containers/builtin_containers.py:6-98 | every built-in kind has between 2 and 32 rows |
| Containers.PlateKind.NumColumns | synbiopython/lab_automation/containers/builtin_containers.py:6-98 | every built-in kind has at least one column |
| Containers.PlateKindDimensions | synbiopython/lab_automation/containers/Plate.py:163-185 | for the standard grids the index helpers recover the real dimensions; Plate2x4 and Trough8x1 have 8 wells, read as 2×3 |
| Containers.NamesA4B1 | synbiopython/lab_automation/containers/helper_functions.py:37-40 | cells (1,4), (2,1), (1,2) are named A4, B1, A2 |
| Containers.EightWellIndices | synbiopython/lab_automation/containers/Plate.py:163-185 | on 8 wells A4 and B1 both have index 4, index 4 is B1 and index 2 is A2 |
| Containers.EightWellNamesToIndex | synbiopython/lab_automation/containers/Plate.py:175-185 | on 8 wells A4 and B1 both have index 4 |
| Containers.EightWellIndicesToNames | synbiopython/lab_automation/containers/Plate.py:163-173 | on 8 wells index 4 is named B1 and index 2 A2 |
| Containers.WellIndicesA1A2 | synbiopython/lab_automation/containers/Plate.py:181-182 | on 96 wells A1 has index 1 and A2 index 2 |
| Containers.WellIndexInFirstRow | synbiopython/lab_automation/containers/helper_functions.py:43-56 | on 96 wells the well A<d> has index d by row |
| Containers.Plate.constructor | synbiopython/lab_automation/containers/Plate.py:40-54 | a valid plate: one fresh well per cell of the grid, keyed by its name, carrying its row, column, name, data and the kind's capacity, with distinct empty contents; on a trough all wells share one content and the data given is ignored |
| Containers.Plate.Copy | synbiopython/lab_automation/picklist/PickList.py:63 | `deepcopy(plate)`: the same format, name and data, and under each name a fresh well in the same place with the same data, capacity and sources, holding a fresh content in the same state; two wells share a copied content exactly when their originals share one; a valid plate copies to a valid plate |
| Containers.Plate.AddWell | synbiopython/lab_automation/containers/Plate.py:49-54 | one step of the nested loop adds the well of the next cell and keeps every earlier well |
| Containers.Plate.MakeWell | synbiopython/lab_automation/containers/Plate.py:51-53 | a fresh well placed at its cell, with its data, fresh content (shared on a trough) |
| Containers.Plate.WellAtCell | synbiopython/lab_automation/containers/Plate.py:47-54 | every cell of the grid has its well under its name |
| Containers.Plate.WellsOf | synbiopython/lab_automation/containers/Plate.py:56-58 | looks up the well of each cell by name |
| Containers.Plate.Values | synbiopython/lab_automation/containers/Plate.py:122 | `wells.values()` has one well per cell |
| Containers.Plate.IterWells | synbiopython/lab_automation/containers/Plate.py:190-202 | `iter_wells` yields as many wells as the plate has |
| Containers.Plate.IterWellsSorted | synbiopython/lab_automation/containers/Plate.py:187-202 | "row" orders by (row, column); any other direction by (column, row) |
| Containers.Plate.IterWellsMembers | synbiopython/lab_automation/containers/Plate.py:187-202 | `iter_wells` yields exactly the plate's wells |
| Containers.Plate.IterWellsDistinct | synbiopython/lab_automation/containers/Plate.py:187-202 | `iter_wells` yields each well once |
| Containers.Plate.GetItem | synbiopython/lab_automation/containers/Plate.py:56-58 | succeeds exactly for a name that is a key of the wells; any other key (e.g. the integer 0) is a KeyError |
| Containers.Plate.GetItemKeys | synbiopython/lab_automation/containers/Plate.py:56-84 | every cell is found by its name, an integer key is a KeyError, and so `list_well_data_fields` raises KeyError |
| Containers.Plate.ListWellDataFields | synbiopython/lab_automation/containers/Plate.py:82-84 | always the KeyError raised by iterating the plate, whose first lookup is `self[0]` |
| Containers.Plate.FilterWellsOf | synbiopython/lab_automation/containers/Plate.py:86-110 | filtering the wells of some cells equals taking the wells of the filtered cells |
| Containers.Plate.ListWellsInColumnSpec | synbiopython/lab_automation/containers/Plate.py:86-95 | the wells of the column, in row order (rows of them), or none for a column outside the plate |
| Containers.Plate.ListWellsInColumn | synbiopython/lab_automation/containers/Plate.py:86-95 | only wells of the plate in that column |
| Containers.Plate.ListWellsInRowSpec | synbiopython/lab_automation/containers/Plate.py:97-110 | a row name is converted (and its error propagates); the result is the wells of the row, in column order, or none for a row outside the plate |
| Containers.Plate.ListWellsInRow | synbiopython/lab_automation/containers/Plate.py:97-110 | a row number always succeeds; a row name succeeds exactly when it converts; failures are ValueErrors; only wells of the plate are returned |
| Containers.Plate.ListFilteredWellsSpec | synbiopython/lab_automation/containers/Plate.py:112-122 | exactly the wells satisfying the condition, each once, in insertion (row-major) order |
| Containers.Plate.ListFilteredWells | synbiopython/lab_automation/containers/Plate.py:112-122 | only wells of the plate that satisfy the condition |
| Containers.Plate.FindUniqueWellByConditionSpec | synbiopython/lab_automation/containers/Plate.py:60-72 | returns the only satisfying well; raises ValueError exactly when none or two distinct wells satisfy it |
| Containers.Plate.FindUniqueWellByCondition | synbiopython/lab_automation/containers/Plate.py:60-72 | fails only with ValueError; a result is a well of the plate that satisfies the condition |
| Containers.Plate.FindUniqueWellContainingSpec | synbiopython/lab_automation/containers/Plate.py:74-80 | returns the only well whose quantities have the query as a key; ValueError otherwise, in particular when none has it |
| Containers.Plate.FindUniqueWellContaining | synbiopython/lab_automation/containers/Plate.py:74-80 | fails only with ValueError; a result is a well of the plate whose quantities list the query |
| Containers.Plate.WellsGroupedBy | synbiopython/lab_automation/containers/Plate.py:124-149 | groups the wells, iterated in the given direction, as Grouping states |
| Containers.Plate.GetWellAtIndexSpec | synbiopython/lab_automation/containers/Plate.py:151-173 | on a standard grid, index i gives the i-th well of `iter_wells` in that direction, whose own index is i |
| Containers.Plate.GetWellAtGridIndexSpec | synbiopython/lab_automation/containers/Plate.py:151-185 | index i, computed from the plate's real rows and columns, gives the i-th well of `iter_wells`, whose grid index is i; this holds on every kind |
| Containers.Plate.GetWellAtIndex | synbiopython/lab_automation/containers/Plate.py:151-161 | a result is the well of the plate filed under the name `index_to_wellname` gives, which exists only on a plate with wells and a valid direction |
| Containers.Plate.GetWellAtGridIndex | synbiopython/lab_automation/containers/Plate.py:151-173 | the corrected lookup: a result is the well filed under the name of the index's cell in the plate's own grid, at row ≥ 1 |
| Containers.Plate.IndexToWellName | synbiopython/lab_automation/containers/Plate.py:163-173 | succeeds exactly when `index_to_row_column` succeeds (a plate with wells and a valid direction) and the row it gives is at least −25; a lower row, from a very negative index, is the IndexError of naming it; so it always succeeds for an index ≥ 1 on a plate with wells and a valid direction |
| Containers.Plate.WellNameToIndex | synbiopython/lab_automation/containers/Plate.py:175-185 | succeeds exactly when the direction is valid and the name parses |
| Containers.Plate.Repr | synbiopython/lab_automation/containers/Plate.py:204-205 | the class name, then the plate name between parentheses |
| Containers.Plate.Plate2x4IndicesCollide | synbiopython/lab_automation/containers/builtin_containers.py:27-31 | on Plate2x4 wells A4 and B1 both have index 4 and index 4 gives B1 |
| Containers.Plate.IsAfterExample | tests/lab_automation/test_well.py:77-79 | on a 96-well plate A1 is not after A2 and A2 is after A1 |
| Containers.Plate.TroughIndexMissing | synbiopython/lab_automation/containers/builtin_containers.py:94-98 | on Trough8x1, index 2 is named A2, which is not a well of the trough (KeyError) |
| Transfers.Portion | synbiopython/lab_automation/picklist/Transfer.py:73-78 | every source component scaled by volume / source volume, keys in order |
| Transfers.ApplyToContents | synbiopython/lab_automation/picklist/Transfer.py:50-82 | fails only with TransferError; with source and destination sharing content, both sides stay equal |
| Transfers.TransferFails | synbiopython/lab_automation/picklist/Transfer.py:53-70 | fails exactly when the source is empty, the volume exceeds the source volume, or the capacity would overflow |
| Transfers.TransferCompletes | synbiopython/lab_automation/picklist/Transfer.py:72-80 | once the three checks pass, neither the addition nor the subtraction can fail |
| Transfers.TransferSteps | synbiopython/lab_automation/picklist/Transfer.py:72-80 | a successful transfer is an addition of the portion to the destination and a subtraction of it from the source |
| Transfers.TransferFillsDestination | synbiopython/lab_automation/picklist/Transfer.py:73-79 | each component of the destination grows by source quantity × factor |
| Transfers.TransferDrainsSource | synbiopython/lab_automation/picklist/Transfer.py:73-80 | each source component is left at q·(1 − factor); a key disappears exactly when the whole volume moves or its amount was 0 |
| Transfers.TransferConservesComponents | synbiopython/lab_automation/picklist/Transfer.py:73-80 | every component's total over source and destination is conserved |
| Transfers.TransferConservesVolume | synbiopython/lab_automation/picklist/Transfer.py:79-80 | the total volume is conserved, the destination grows and the source shrinks by the volume, and the capacity holds |
| Transfers.TransferEmptiesSource | synbiopython/lab_automation/picklist/Transfer.py:73-80 | moving the whole volume leaves the source with no quantities and volume 0 |
| Transfers.TransferKeepsSourceConcentration | synbiopython/lab_automation/picklist/Transfer.py:73-80 | a partial transfer keeps every concentration of the source |
| Transfers.TransferIntoEmpty | synbiopython/lab_automation/picklist/Transfer.py:73-79 | a transfer into an empty well gives it the source's concentrations |
| Transfers.SharedTransferKeepsContent | synbiopython/lab_automation/containers/builtin_containers.py:100-103 | a transfer between two wells sharing content leaves the volume and every amount unchanged |
| Transfers.ScenarioFirstFilling | tests/lab_automation/test_transfer.py:44-45 | adding 1 of Compound_1 in 5e-6 L to an empty well |
| Transfers.ScenarioSecondFilling | tests/lab_automation/test_transfer.py:52 | adding again gives 2 of Compound_1 in 3e-5 L |
| Transfers.TransferScenario | tests/lab_automation/test_transfer.py:40-59 | an empty source, an oversize volume and a 3e-6 L capacity fail; a 5e-5 L capacity succeeds and the destination holds 25e-6 L |
| Transfers.Recorded | synbiopython/lab_automation/picklist/Transfer.py:81-82 | the destination's sources keep their order, gain the transfer, and hold it once when it was new |
| Transfers.RecordedIdempotent | synbiopython/lab_automation/picklist/Transfer.py:81-82 | recording the same transfer twice changes nothing more |
| Transfers.Transfer.constructor | synbiopython/lab_automation/picklist/Transfer.py:19-24 | the given source, destination, volume and data |
| Transfers.Transfer.WithNewVolume | synbiopython/lab_automation/picklist/Transfer.py:41-48 | a new transfer with the same wells and data and the new volume |
| Transfers.Transfer.Apply | synbiopython/lab_automation/picklist/Transfer.py:50-82 | a failure changes neither content nor sources; a success sets both contents to ApplyToContents' result and records the transfer once |
| Transfers.PlainStringExample | tests/lab_automation/test_transfer.py:20-24 | "Transfer 2.50E-05L from Source A1 into Destination B2" |
| Transfers.Transfer.ToPlainString | synbiopython/lab_automation/picklist/Transfer.py:26-33 | starts with "Transfer " and ends with the destination well's name |
| PickLists.ApplyStep | synbiopython/lab_automation/picklist/Transfer.py:50-82 | one transfer on the lab state: fails exactly when ApplyToContents fails, and changes only the two contents involved |
| PickLists.RunSteps | synbiopython/lab_automation/picklist/PickList.py:86-88 | runs in order: succeeds exactly when every transfer was applied; failures are TransferErrors |
| PickLists.RunStopsAtFirstFailure | synbiopython/lab_automation/picklist/PickList.py:86-88 | the state reached is that of the successful prefix, and the failure is that of the next transfer (no rollback) |
| PickLists.RunAppend | synbiopython/lab_automation/picklist/PickList.py:86-88 | running a + b runs a, then b from where a left off, unless a failed |
| PickLists.FailureIsFinal | synbiopython/lab_automation/picklist/PickList.py:86-88 | once a prefix fails, the whole run ends with that failure |
| PickLists.RunFailsOnEmptySource | tests/lab_automation/test_picklist.py:36-38 | a list whose first source is empty fails at once, leaving the lab unchanged |
| PickLists.RecordedAllMembers | synbiopython/lab_automation/picklist/Transfer.py:81-82 | after the run, each destination's sources are its old ones plus each transfer into it, each new one once |
| PickLists.PickList.Simulate | synbiopython/lab_automation/picklist/PickList.py:86-89 | applies the transfers in order: the contents become the state RunSteps reaches, the outcome is its outcome, and each destination records the transfers applied so far |
| PickLists.PickList.ApplyInOrder | synbiopython/lab_automation/picklist/PickList.py:87-88 | the loop over transfers, with the same guarantee as Simulate |
| PickLists.PickList.Advance | synbiopython/lab_automation/picklist/PickList.py:87-88 | one iteration keeps the loop invariant or ends the run with the failure |
| PickLists.PickList.ApplyTracked | synbiopython/lab_automation/picklist/Transfer.py:50-82 | one apply, read on the lab state: the result of ApplyStep and one more record |
| PickLists.RunRenamed | synbiopython/lab_automation/picklist/PickList.py:86-88 | simulating the same transfers on renamed contents, from corresponding states, ends with the same outcome after the same number of transfers, each content in the state of the one it renames |
| PickLists.CopyPlates | synbiopython/lab_automation/picklist/PickList.py:55-63 | one fresh copy per plate (`Plate.Copy`); copies of two different plates share no content |
| PickLists.ConsistentCopies | synbiopython/lab_automation/picklist/PickList.py:55-63 | copies of separate plates share contents exactly as the originals do |
| PickLists.CloneContents | synbiopython/lab_automation/picklist/PickList.py:55-63 | on separate plates, a one-to-one map from the original contents to their copies, each copy in the state of its original |
| PickLists.RebuildOne | synbiopython/lab_automation/picklist/PickList.py:66-76 | one transfer rebuilt between the wells of the same names in the copies, with its volume and no data; KeyError exactly when one of its well names is missing from its plate |
| PickLists.Rebuild | synbiopython/lab_automation/picklist/PickList.py:65-77 | KeyError exactly when some transfer has a well name missing from its plate; otherwise one fresh transfer per original, in order, each rebuilt on the copies |
| PickLists.CopiesMatch | synbiopython/lab_automation/picklist/PickList.py:63-83 | on separate plates the run of the rebuilt transfers ends with the outcome of the run of the originals, each copied content in the state of its original |
| PickLists.PickList.CopyAndClone | synbiopython/lab_automation/picklist/PickList.py:55-63 | fresh copies of exactly the plates the transfers touch, with the same well names and capacities, holding none of the original contents |
| PickLists.PickList.CopyAndRebuild | synbiopython/lab_automation/picklist/PickList.py:55-77 | KeyError exactly when a well name is missing; otherwise the copies and the rebuilt transfers, which touch only fresh contents and wells of the copies |
| PickLists.PickList.RunRebuilt | synbiopython/lab_automation/picklist/PickList.py:79-83 | the new pick list simulated in place: when the rebuilt transfers match the originals, it succeeds exactly when their run does, and every well of a copy holds what that run leaves in the original well's content |
| PickLists.PickList.SimulateRebuilt | synbiopython/lab_automation/picklist/PickList.py:79-83 | on separate plates, succeeds exactly when the run of the original transfers does, and then every well of a copy holds what that run leaves in the original well's content; the copies keep their shape |
| PickLists.PickList.SimulateCopy | synbiopython/lab_automation/picklist/PickList.py:54-84 | `simulate(inplace=False)`: KeyError exactly when a well name is missing from its plate, otherwise only TransferError; a result maps exactly the plates the transfers touch to fresh copies with the same well names; on separate plates it succeeds exactly when the in-place run of the transfers would, and every well of a copy then holds what that run leaves in the original well's content; no object that existed before the call changes |
| PickLists.PlainLines | synbiopython/lab_automation/picklist/PickList.py:42-44 | one line per transfer, in order |
| PickLists.PlainLinesAppend | synbiopython/lab_automation/picklist/PickList.py:42-44 | the lines of a concatenation are the lines of the parts |
| PickLists.PlainTextAppend | synbiopython/lab_automation/picklist/PickList.py:42-44 | the text of a concatenation is the two texts joined by a newline |
| PickLists.PickList.PlainString | synbiopython/lab_automation/picklist/PickList.py:42-44 | "" for no transfers and the single line for one; otherwise it starts with the first transfer's line and ends with the last's |
| PickLists.TotalOfConcatenation | synbiopython/lab_automation/picklist/PickList.py:132-134 | the total volume of a concatenation is the sum of the totals |
| PickLists.PickList.TotalTransferredVolume | synbiopython/lab_automation/picklist/PickList.py:132-134 | 0 for no transfers, and never negative when no volume is |
| PickLists.RestrictedToWells | synbiopython/lab_automation/picklist/PickList.py:91-114 | keeps exactly the transfers from the given source and into the given destination; None matches anything |
| PickLists.RestrictedToAnyWell | synbiopython/lab_automation/picklist/PickList.py:101-114 | with no source and no destination every transfer is kept, in order |
| PickLists.RestrictedToExample | tests/lab_automation/test_picklist.py:41-50 | a transfer is kept for its own wells and dropped for a different source |
| PickLists.SortedBySourceWell | synbiopython/lab_automation/picklist/PickList.py:116-130 | the default sort is a permutation ordered by the source well's string, stable among equal sources |
| PickLists.Trunc | synbiopython/lab_automation/picklist/PickList.py:141 | `int(x)` truncates toward zero |
| PickLists.Repeat | synbiopython/lab_automation/picklist/PickList.py:143-144 | n copies of the same volume |
| PickLists.Rest | synbiopython/lab_automation/picklist/PickList.py:141-142 | the remainder is below the maximum and, for a non-negative volume, the count and remainder are non-negative |
| PickLists.ChunksBounded | synbiopython/lab_automation/picklist/PickList.py:141-146 | every chunk is positive and at most the maximum |
| PickLists.ChunksSum | synbiopython/lab_automation/picklist/PickList.py:141-146 | the chunks of a non-negative volume add up to it |
| PickLists.ChunksExample | tests/lab_automation/test_picklist.py:61-63 | 25e-6 L at most 5e-6 L gives five chunks of 5e-6 L |
| PickLists.ChunksOf | synbiopython/lab_automation/picklist/PickList.py:140-146 | the chunks of one transfer, in order |
| PickLists.PlanAppend | synbiopython/lab_automation/picklist/PickList.py:140-146 | the chunks of a concatenation are the chunks of the parts, so each transfer's chunks stay contiguous and in order |
| PickLists.PlanBounded | synbiopython/lab_automation/picklist/PickList.py:136-147 | each chunk comes from a transfer of the list and is positive and at most the maximum |
| PickLists.PlanTotal | synbiopython/lab_automation/picklist/PickList.py:132-147 | splitting preserves the total transferred volume, for non-negative volumes |
| PickLists.RealizesAppend | synbiopython/lab_automation/picklist/PickList.py:144-146 | transfers built for two plans, concatenated, carry out the concatenated plan |
| PickLists.PickList.EnforceMaximumDispenseVolume | synbiopython/lab_automation/picklist/PickList.py:136-147 | fails with ZeroDivisionError exactly when the maximum is 0 and there is a transfer; otherwise fresh transfers with the same wells and data carry out the plan |
| PickLists.PickList.Split | synbiopython/lab_automation/picklist/PickList.py:140-146 | fresh transfers carrying out the chunks of one transfer |
| PickLists.PickList.constructor | synbiopython/lab_automation/picklist/PickList.py:15-18 | the given transfers, and an empty data dict when none is given |
| PickLists.PickList.AddTransfer | synbiopython/lab_automation/picklist/PickList.py:20-40 | appends the transfer at the end and keeps the rest |
| PickLists.PickList.AddNewTransfer | synbiopython/lab_automation/picklist/PickList.py:33-40 | builds a new transfer from the parameters and appends it |
| PickLists.PickList.RestrictedTo | synbiopython/lab_automation/picklist/PickList.py:91-114 | a new list of the filtered transfers, with this list as parent |
| PickLists.PickList.SortedBy | synbiopython/lab_automation/picklist/PickList.py:116-130 | a new list of the sorted transfers, with this list as parent |
| PickLists.PickList.Concat | synbiopython/lab_automation/picklist/PickList.py:149-150 | a new list of this list's transfers followed by the other's |
| PickLists.MergePickLists | synbiopython/lab_automation/picklist/PickList.py:152-160 | a new list of all transfers, list after list |
| PickLists.MergedTwice | tests/lab_automation/test_picklist.py:66-68 | merging a list with itself gives its transfers twice, twice as many |

## Left out

- PickLists.PickList.SimulateCopy: the states the copies reach are stated only for separate plates, where no content is held by wells of two different plates. Plates made by the plate constructor are always separate. Copying plates that share a content one by one, as `deepcopy` per plate does, breaks that sharing, and the model does not state the result then.
- Containers.Plate.Copy: a copied well keeps the original `sources` list, whose entries refer to the original transfers and wells. `deepcopy` copies those too.
- `PickList.to_plain_textfile`: writing a file is I/O.
- The `%.02E` formatting of volumes is a parameter, `format: real -> string`, of `ToPlainString` and of the pick-list text.
- `Transfer.to_short_string`, `Well.pretty_summary`, `Well.to_dict` and both `__repr__` methods are presentation only. The strings that `__lt__` and sorting compare are modelled as `Repr`.
- `Plate.wells_sorted_by` with an arbitrary key is not modelled. Only the two keys `iter_wells` uses are.
- `sorted_by`'s lookup of an attribute through `__dict__` is a key function to strings. Python keys of other types are not modelled, and strings compare by code point.
- The data dicts of wells take string values (`WellData`). Grouping keys are `Option<string>`, with `None` for a missing field. Sorting None against a string is the `TypeError` Python raises.
- The conditions of `find_unique_well_by_condition`, `list_filtered_wells` and `wells_grouped_by` see a snapshot of the well (`WellView`: name, position, data, volume, quantities), not the object itself.
- Containers.Well.SourcesTree: the traversal takes a depth bound, and a source well below that depth is listed as a leaf. This ensures termination. The Python generator has no bound and recurses forever on a cycle of sources.
- `simulate`'s `content_field` parameter is unused by the source and left out.
- Component names are strings (the `Quantities` keys). A Python dict takes any hashable key, but only string component names are modelled.
- Floating point: volumes and quantities are exact reals.
  - The equality test in `subtract_content` and `int(v/m)` in `enforce_maximum_dispense_volume` are therefore exact.
  - `concentration` returns exact quotients. The `250000.00000000003` of a well test is not modelled.
- Of `tools.py`, only the `unit_factors` table is modelled (the `UnitFactors` constant). Rounding, name matching and pretty-printing are not.
- `synbiopython/lab_automation/Picklist/Transfer.py` (capital P) is a broken duplicate of the live `picklist/Transfer.py`, which is the one modelled.
- `TransferError` subclasses `ValueError`. This appears only as `Error.IsValueError`: code that catches `ValueError` catches both.
- Containers.CellNameInjective: stated for rows 1..51 only. The proof reads names back with `rowname_to_number`, which fails above that for multiples of 26 (see Findings).
- Coordinates.WellNameIndexRoundTrip: stated for plates of at most 51 rows, for the same reason. Every built-in plate qualifies.
- Containers.Plate.GetWellAtIndexSpec: stated for the standard grids only. On the two eight-well kinds `get_well_at_index` does not follow the grid (see Findings).

## Findings

| source | as written | input that shows it | evidently intended | confidence | as-written member | corrected member |
|---|---|---|---|---|---|---|
| synbiopython/lab_automation/containers/helper_functions.py:24-28 | `number_to_rowname(n)` for n > 26 names `n // 26` and then `n % 26`. A remainder of 0 indexes letter −1, so a multiple of 26 gets the next row's first letter and a final Z. | 52 is named "BZ", which `rowname_to_number` reads back as 78 | 52 → "AZ": the first letter is `(n − 1) // 26` and the second is `(n − 1) % 26 + 1`, the inverse of `rowname_to_number` on 1..702 | high (not executed) | Coordinates.RowNameCounterexample | Coordinates.RowNameInverse |
| synbiopython/lab_automation/containers/builtin_containers.py:100-103 | `Trough8x1.__init__` runs `for well in self`. `Plate` has no `__iter__`, so Python calls `__getitem__(0)`, which looks up `wells[0]` and raises KeyError. | constructing any `Trough8x1` | all eight wells share the content of A1, and the data given is ignored | high (not executed) | Containers.Plate.GetItemKeys | Containers.Plate.constructor |
| synbiopython/lab_automation/containers/Plate.py:151-185 | the index methods derive the rows and columns from `num_wells` alone, and 8 wells are read as 2 rows × 3 columns | on Plate2x4 (2×4), A4 and B1 both have index 4 and index 4 gives B1; on Trough8x1 (8×1), index 2 names A2, which is not a well (KeyError) | indices follow the plate's own rows and columns, and each index 1..num_wells gives the well at that position of `iter_wells` | high (not executed) | Containers.Plate.Plate2x4IndicesCollide | Containers.Plate.GetWellAtGridIndexSpec |

Where the built-in plates are concerned the model keeps the source's behaviour. `number_to_rowname` is used for names only through rows 1..32, where `Coordinates.RowNameAgrees` proves it equals the intended naming. The index methods are modelled as written (`GetWellAtIndex`), beside the corrected `GetWellAtGridIndex`. `Containers.PlateKindDimensions` proves the two agree on every standard grid.
