# Dynamic confusion matrix, modelled and verified in Dafny

This project models `DynamicConfusionMatrix` from the `streams` library. The class scores a
novelty-detection classifier on a data stream with a confusion matrix whose two axes
grow as labels appear:

- **Rows** are true labels. Each row also keeps a count of *unknown* (deferred) samples.
- **Known columns** are class labels registered with `addKnownLabel`.
- **Novelty columns** are created the first time a predicted label arrives marked as novel.

The queries do three things:

- They credit each novelty column that holds a positive count to the first row, in row
  order, holding its greatest count, unless that row's label is -1. A column with no
  positive count, or whose first greatest row is labelled -1, is credited to no one.
- From that association they derive the per-label counts TP, FP, FN and TN.
- The combined error rate (CER) is computed from TP, FP, FN and TN and the explained
  counts. The unknown rate (UnkR) is computed from the explained and deferred counts only.

The model has two layers:

- `MatrixState` (state.dfy) is the object's fields as a value `State`. It has a shape
  invariant `Wf` and one transition function per mutation. Lemmas state what each
  transition does to the registries, the cells and the unknown counts.
- `ConfusionMatrix.DynamicConfusionMatrix` (matrix.dfy) is a class with the same eleven
  fields. Its methods update the fields in place, as the Java methods do. Each method is
  proved to keep `Valid()` and to move `Snapshot()` exactly as the matching transition
  does. `CalculateNoveltyAssociationByRow` keeps the source's nested loop and is proved
  equal to the function `Association.NoveltyAssociationByRow`.

The remaining modules hold the pure queries:

- `Association` (association.dfy) is the novelty association.
- `Metrics` (metrics.dfy) holds the per-label counts, the explained-sample counts, CER and UnkR.
- `Sums` (sums.dfy) is `reduce(0, Integer::sum)`.
- `Examples` (examples.dfy) holds worked cases.

Failures are values, not exceptions. `addPrediction` throws `IllegalArgumentException` and
`updatedDelayed` throws `RuntimeException`; here they return `Fail(UnregisteredKnownLabel)`
and `Fail(UnknownRowLabel)`. The state reached before a throw is kept.

Two behaviours of the code that are easy to miss, and that the model keeps:

- **`measureFN` when the label owns no novelty column.** `measureFN` returns before its
  novelty part when the association has no entry for the label (lines 354-357), so that
  row's novelty cells count as neither TP nor FN. `Metrics.TPPlusFN` states the split.
- **A failed `addPrediction` keeps the row it created.** The row for the true label is
  created at lines 133-137, before the known-label check at lines 153-155 can throw.

## Model

| member | source | states |
|---|---|---|
| Sums.Zeros | src/main/java/br/com/douglas444/streams/datastructures/DynamicConfusionMatrix.java:78-79 | `Collections.nCopies(n, 0)`: a list of exactly `n` zeros |
| Sums.Sum | src/main/java/br/com/douglas444/streams/datastructures/DynamicConfusionMatrix.java:382-388 | `reduce(0, Integer::sum)` over a row of counts; the sum of non-negative counts is non-negative |
| Sums.SumAppend | src/main/java/br/com/douglas444/streams/datastructures/DynamicConfusionMatrix.java:382-388 | one more count at the end raises the sum by that count |
| Sums.SumOfZeros | src/main/java/br/com/douglas444/streams/datastructures/DynamicConfusionMatrix.java:78-79 | a list of zero counts, such as a fresh row, sums to zero |
| Sums.SumIncrementAt | src/main/java/br/com/douglas444/streams/datastructures/DynamicConfusionMatrix.java:147-160 | raising one count of a row by one raises the row's sum by exactly one |
| MatrixState.WithZeroColumn | src/main/java/br/com/douglas444/streams/datastructures/DynamicConfusionMatrix.java:88 | `row.add(0)` on every row: same number of rows, each row extended by exactly one trailing zero |
| MatrixState.Empty | src/main/java/br/com/douglas444/streams/datastructures/DynamicConfusionMatrix.java:25-42 | the no-argument constructor's state satisfies the shape invariant and has no rows and no columns |
| MatrixState.AddRow | src/main/java/br/com/douglas444/streams/datastructures/DynamicConfusionMatrix.java:75-82 | appending a zero row for a new label keeps the shape invariant (one row per label, row i indexed by i, rows as wide as the column registries) |
| MatrixState.AddKnownColumn | src/main/java/br/com/douglas444/streams/datastructures/DynamicConfusionMatrix.java:84-90 | appending a known column, even for a label that already has one, keeps the shape invariant |
| MatrixState.AddNoveltyColumn | src/main/java/br/com/douglas444/streams/datastructures/DynamicConfusionMatrix.java:92-98 | appending a novelty column for a new label keeps the shape invariant |
| MatrixState.AddKnownLabel | src/main/java/br/com/douglas444/streams/datastructures/DynamicConfusionMatrix.java:68-73 | registering a known label keeps the shape invariant and appends the label to the known registry, even when it is already there |
| MatrixState.RegisterAll | src/main/java/br/com/douglas444/streams/datastructures/DynamicConfusionMatrix.java:61 | registering a list of labels one by one keeps the shape invariant and appends exactly that list, in order, to the known registry |
| MatrixState.RegisterAllStep | src/main/java/br/com/douglas444/streams/datastructures/DynamicConfusionMatrix.java:61 | registering one more label of the list is one more `addKnownLabel`, as each step of the `forEach` is |
| MatrixState.WithRow | src/main/java/br/com/douglas444/streams/datastructures/DynamicConfusionMatrix.java:133-137 | after the lazy row creation the label has a row and the shape invariant holds |
| MatrixState.WithNoveltyColumn | src/main/java/br/com/douglas444/streams/datastructures/DynamicConfusionMatrix.java:143-145 | after the lazy novelty-column creation the predicted label has a novelty column, the shape invariant holds, and rows are unchanged |
| MatrixState.CountNovel | src/main/java/br/com/douglas444/streams/datastructures/DynamicConfusionMatrix.java:147-149 | raising one novelty cell keeps the shape invariant (counts stay non-negative) |
| MatrixState.CountKnown | src/main/java/br/com/douglas444/streams/datastructures/DynamicConfusionMatrix.java:158-160 | raising one known cell keeps the shape invariant (counts stay non-negative) |
| MatrixState.Increment | src/main/java/br/com/douglas444/streams/datastructures/DynamicConfusionMatrix.java:147-149 | `set(columnIndex, count + 1)` on one row: exactly one cell rises, by one, and no other cell or row length changes |
| MatrixState.AddPrediction | src/main/java/br/com/douglas444/streams/datastructures/DynamicConfusionMatrix.java:130-164 | recording a prediction keeps the shape invariant, on success and on failure |
| MatrixState.AddUnknown | src/main/java/br/com/douglas444/streams/datastructures/DynamicConfusionMatrix.java:116-128 | counting a deferred sample keeps the shape invariant |
| MatrixState.UpdatedDelayed | src/main/java/br/com/douglas444/streams/datastructures/DynamicConfusionMatrix.java:100-114 | resolving a deferred sample keeps the shape invariant, including when the unknown count goes below zero |
| MatrixState.AddPredictionOutcome | src/main/java/br/com/douglas444/streams/datastructures/DynamicConfusionMatrix.java:130-164 | `addPrediction` fails exactly when a non-novel prediction names a label missing from the known registry; afterwards `r` has a row (appended if new), the known registry is unchanged, the novelty registry gains `p` exactly when it is a new novel label, and a new row gets a zero deferred count |
| MatrixState.AddPredictionKnownCells | src/main/java/br/com/douglas444/streams/datastructures/DynamicConfusionMatrix.java:130-164 | every known cell is as before (0 in a new row), except that a successful known prediction raises the (r, p) cell by exactly one |
| MatrixState.KnownPredictionCells | src/main/java/br/com/douglas444/streams/datastructures/DynamicConfusionMatrix.java:133-160 | with `p` registered, a known prediction raises the (r, p) known cell by one and leaves every other known cell as it was |
| MatrixState.AddPredictionNoveltyCells | src/main/java/br/com/douglas444/streams/datastructures/DynamicConfusionMatrix.java:130-164 | every novelty cell is as before (0 in a new row or column), except that a novel prediction raises the (r, p) cell by exactly one |
| MatrixState.NovelPredictionCells | src/main/java/br/com/douglas444/streams/datastructures/DynamicConfusionMatrix.java:133-150 | a novel prediction raises the (r, p) novelty cell by one and leaves every other novelty cell as it was |
| MatrixState.GrownNoveltyCells | src/main/java/br/com/douglas444/streams/datastructures/DynamicConfusionMatrix.java:133-145 | creating the row and the novelty column keeps every old novelty cell and makes the new ones 0 |
| MatrixState.WithRowEffect | src/main/java/br/com/douglas444/streams/datastructures/DynamicConfusionMatrix.java:133-137 | lazy row creation appends `r` only when new, keeps every existing row index, registry and deferred count, adds a zero deferred count, and keeps every cell (new cells are 0) |
| MatrixState.WithNoveltyColumnEffect | src/main/java/br/com/douglas444/streams/datastructures/DynamicConfusionMatrix.java:143-145 | lazy novelty-column creation appends `p` only when new, keeps the known side and deferred counts, and keeps every novelty cell (new cells are 0) |
| MatrixState.AddKnownLabelEffect | src/main/java/br/com/douglas444/streams/datastructures/DynamicConfusionMatrix.java:64-90 | after `addKnownLabel(k)`: `k` is known, its index points at the new last column, it has a row, every earlier row gained exactly one trailing zero known cell, novelty cells and unknown counts are unchanged, and a new row is all zeros |
| MatrixState.AddKnownLabelKeepsZero | src/main/java/br/com/douglas444/streams/datastructures/DynamicConfusionMatrix.java:68-90 | registering a known label adds no count to an all-zero matrix |
| MatrixState.AddRowKeepsZero | src/main/java/br/com/douglas444/streams/datastructures/DynamicConfusionMatrix.java:75-82 | a new row adds no count to an all-zero matrix |
| MatrixState.AddKnownLabelGrows | src/main/java/br/com/douglas444/streams/datastructures/DynamicConfusionMatrix.java:68-90 | registering a label keeps every earlier row label and known label and appends the new known label |
| MatrixState.RegisterAllEffect | src/main/java/br/com/douglas444/streams/datastructures/DynamicConfusionMatrix.java:44-62 | the seeding constructor's known-column registry is the given list, in order and with any duplicates, and every given label is known and has a row |
| MatrixState.RegisterAllKnows | src/main/java/br/com/douglas444/streams/datastructures/DynamicConfusionMatrix.java:44-62 | a label given to the seeding constructor is known and has a row, whatever labels follow it |
| MatrixState.RegisterAllKeepsZero | src/main/java/br/com/douglas444/streams/datastructures/DynamicConfusionMatrix.java:44-62 | the seeding constructor leaves every count and every deferred count at zero |
| MatrixState.AddUnknownEffect | src/main/java/br/com/douglas444/streams/datastructures/DynamicConfusionMatrix.java:116-128 | creates the row if absent and raises that row's unknown count, and only that count, by exactly one; no cell changes |
| MatrixState.UpdatedDelayedEffect | src/main/java/br/com/douglas444/streams/datastructures/DynamicConfusionMatrix.java:100-114 | with no row for `r`: fails and changes nothing; otherwise `r`'s unknown count drops by exactly one, with no floor, other unknown counts stay, and outcome, registries and tables are exactly those of `addPrediction(r, p, isNovel)` |
| Association.Column | src/main/java/br/com/douglas444/streams/datastructures/DynamicConfusionMatrix.java:251-254 | the cells of novelty column `j`, row by row |
| Association.Leader | src/main/java/br/com/douglas444/streams/datastructures/DynamicConfusionMatrix.java:248-258 | the inner scan over the first `n` rows ends at -1 or at one of those rows |
| Association.LeaderIsFirstMaximum | src/main/java/br/com/douglas444/streams/datastructures/DynamicConfusionMatrix.java:248-258 | the inner scan ends at -1 exactly when no entry is positive; otherwise at a positive entry that is at least every entry and strictly greater than every earlier one (first maximum wins ties) |
| Association.Owner | src/main/java/br/com/douglas444/streams/datastructures/DynamicConfusionMatrix.java:248-260 | a column's owner is -1 or a row label |
| Association.OwnedBy | src/main/java/br/com/douglas444/streams/datastructures/DynamicConfusionMatrix.java:246-270 | a label's list holds only novelty columns, in strictly increasing column order, which is the order the loop discovers them |
| Association.AssociationUpTo | src/main/java/br/com/douglas444/streams/datastructures/DynamicConfusionMatrix.java:244-270 | after `n` columns every key is a row label other than -1 whose list is non-empty, made of novelty columns, and equal to the columns that label owns |
| Association.NoveltyAssociationByRow | src/main/java/br/com/douglas444/streams/datastructures/DynamicConfusionMatrix.java:242-274 | every key is a row label other than -1, and its list is non-empty, made of novelty columns, and in discovery order |
| Association.Credit | src/main/java/br/com/douglas444/streams/datastructures/DynamicConfusionMatrix.java:260-269 | crediting to -1 changes nothing; otherwise the owner becomes a key whose list is its old list (or the empty list) with the column appended at the end, and every other list is unchanged |
| Association.AssociationStep | src/main/java/br/com/douglas444/streams/datastructures/DynamicConfusionMatrix.java:260-269 | one more column appends that column to its owner's list, creating the list, unless the owner is -1 |
| Association.OwnedByStep | src/main/java/br/com/douglas444/streams/datastructures/DynamicConfusionMatrix.java:260-269 | one more column joins the list of its owner, at the end, and no other label's list |
| Association.AssociationStart | src/main/java/br/com/douglas444/streams/datastructures/DynamicConfusionMatrix.java:244 | before any column is processed the association is the empty map |
| Association.OwnedByMembership | src/main/java/br/com/douglas444/streams/datastructures/DynamicConfusionMatrix.java:246-270 | a column is in a label's list exactly when it is among the columns scanned and that label owns it |
| Association.AssociationIsFirstStrictMaximum | src/main/java/br/com/douglas444/streams/datastructures/DynamicConfusionMatrix.java:242-274 | column `c` is credited to `l` if and only if `l` is not -1, `c` is a novelty column, and `l`'s row holds the first strictly greatest positive count of `c`; so all-zero columns are left out and a row labelled -1 is never credited |
| Association.CreditedIsFirstStrictMaximum | src/main/java/br/com/douglas444/streams/datastructures/DynamicConfusionMatrix.java:242-274 | a credited column is a novelty column, its key is not -1, and the key's row holds the column's first strictly greatest positive count |
| Association.FirstStrictMaximumIsCredited | src/main/java/br/com/douglas444/streams/datastructures/DynamicConfusionMatrix.java:242-274 | a column whose first strictly greatest positive count lies in the row of a label other than -1 is credited to that label |
| Association.AssociationCreditsOnce | src/main/java/br/com/douglas444/streams/datastructures/DynamicConfusionMatrix.java:242-274 | no novelty column appears in two rows' lists |
| Metrics.ExplainedAt | src/main/java/br/com/douglas444/streams/datastructures/DynamicConfusionMatrix.java:378-391 | a row's explained samples (known cells plus novelty cells) are never negative |
| Metrics.Explained | src/main/java/br/com/douglas444/streams/datastructures/DynamicConfusionMatrix.java:378-391 | `numberOfExplainedSamplesPerLabel`: a row label's explained samples are never negative |
| Metrics.ExplainedUpTo | src/main/java/br/com/douglas444/streams/datastructures/DynamicConfusionMatrix.java:393-395 | the explained samples of the first `n` rows are never negative |
| Metrics.NumberOfExplainedSamples | src/main/java/br/com/douglas444/streams/datastructures/DynamicConfusionMatrix.java:393-395 | `numberOfExplainedSamples` is never negative |
| Metrics.ExplainedAtMostUpTo | src/main/java/br/com/douglas444/streams/datastructures/DynamicConfusionMatrix.java:393-395 | a row's explained count is at most the total over rows that include it |
| Metrics.NoveltyCellsIn | src/main/java/br/com/douglas444/streams/datastructures/DynamicConfusionMatrix.java:291-294 | the sum of a row's cells in the listed novelty columns is never negative |
| Metrics.ColumnExcept | src/main/java/br/com/douglas444/streams/datastructures/DynamicConfusionMatrix.java:308-312 | a column summed over the rows of other labels is never negative when the cells are not |
| Metrics.NoveltyColumnsExcept | src/main/java/br/com/douglas444/streams/datastructures/DynamicConfusionMatrix.java:321-332 | the listed novelty columns summed over other rows are never negative |
| Metrics.KnownRowExcept | src/main/java/br/com/douglas444/streams/datastructures/DynamicConfusionMatrix.java:346-350 | a row's cells under the other known labels, each read through the label's index, are never negative |
| Metrics.NoveltyRowOutside | src/main/java/br/com/douglas444/streams/datastructures/DynamicConfusionMatrix.java:359-363 | a row's cells in the novelty columns outside a list are never negative |
| Metrics.MeasureTP | src/main/java/br/com/douglas444/streams/datastructures/DynamicConfusionMatrix.java:276-298 | TP is never negative |
| Metrics.MeasureFP | src/main/java/br/com/douglas444/streams/datastructures/DynamicConfusionMatrix.java:300-336 | FP is never negative |
| Metrics.MeasureFN | src/main/java/br/com/douglas444/streams/datastructures/DynamicConfusionMatrix.java:338-366 | FN is never negative |
| Metrics.TPOfOthers | src/main/java/br/com/douglas444/streams/datastructures/DynamicConfusionMatrix.java:369-376 | TP summed over other rows' labels is never negative |
| Metrics.MeasureTN | src/main/java/br/com/douglas444/streams/datastructures/DynamicConfusionMatrix.java:369-376 | TN is never negative |
| Metrics.TPOfOthersSplit | src/main/java/br/com/douglas444/streams/datastructures/DynamicConfusionMatrix.java:369-376 | over the first `n` rows, the TP of the other labels plus `l`'s own TP (when `l` is among them) is the TP of all of them |
| Metrics.TNComplementsTP | src/main/java/br/com/douglas444/streams/datastructures/DynamicConfusionMatrix.java:369-376 | TN(l) + TP(l) is the TP of all rows for any row label `l`, and TN(l) alone is that total for a label without a row |
| Metrics.SumPrefixStep | src/main/java/br/com/douglas444/streams/datastructures/DynamicConfusionMatrix.java:382-388 | a prefix sum grows by the next element |
| Metrics.KnownRowSplit | src/main/java/br/com/douglas444/streams/datastructures/DynamicConfusionMatrix.java:344-350 | with each known label registered once, the other known labels' cells plus the diagonal cell are the row's known cells |
| Metrics.NoveltyCellsInAppend | src/main/java/br/com/douglas444/streams/datastructures/DynamicConfusionMatrix.java:291-294 | one more listed column adds that column's cell |
| Metrics.NoveltyRowSplit | src/main/java/br/com/douglas444/streams/datastructures/DynamicConfusionMatrix.java:359-363 | a row's novelty cells split into the columns a label owns and the rest |
| Metrics.TPPlusFN | src/main/java/br/com/douglas444/streams/datastructures/DynamicConfusionMatrix.java:276-366 | with each known label registered once, TP + FN of a known row label is its known cells, plus its novelty cells only when it owns some novelty column |
| Metrics.Plus | src/main/java/br/com/douglas444/streams/datastructures/DynamicConfusionMatrix.java:446 | `Double::sum` of two measures: finite exactly when both terms are, and then the sum of their values |
| Metrics.UnkRUpTo | src/main/java/br/com/douglas444/streams/datastructures/DynamicConfusionMatrix.java:429-445 | the summed row values are not finite exactly when some row has explained e ≠ 0 and e + unknown = 0 |
| Metrics.RowUnkR | src/main/java/br/com/douglas444/streams/datastructures/DynamicConfusionMatrix.java:430-444 | a row's unknown rate is not finite exactly when its explained count is non-zero and the deferred count cancels it; with non-negative counts it is a number in [0, 1] |
| Metrics.MeasureUnkR | src/main/java/br/com/douglas444/streams/datastructures/DynamicConfusionMatrix.java:427-448 | UnkR is not a finite number exactly when there are no rows (0 / 0) or some row's negative unknown count cancels its explained count |
| Metrics.RateBound | src/main/java/br/com/douglas444/streams/datastructures/DynamicConfusionMatrix.java:418-419 | x / max(1, x + y) lies in [0, 1] for non-negative counts |
| Metrics.Contribution | src/main/java/br/com/douglas444/streams/datastructures/DynamicConfusionMatrix.java:410-419 | a row that explains nothing contributes 0; with non-negative counts a contribution is non-negative and at most twice the row's share of the explained samples |
| Metrics.RatesWithinShare | src/main/java/br/com/douglas444/streams/datastructures/DynamicConfusionMatrix.java:416-419 | the two weighted rates of a row that explains samples stay within twice its share |
| Metrics.RowCER | src/main/java/br/com/douglas444/streams/datastructures/DynamicConfusionMatrix.java:403-420 | a row label's contribution to CER lies within twice its share of the explained samples |
| Metrics.SumOfBounded | src/main/java/br/com/douglas444/streams/datastructures/DynamicConfusionMatrix.java:422 | adding contributions within their share bounds stays within the summed bound |
| Metrics.Max1 | src/main/java/br/com/douglas444/streams/datastructures/DynamicConfusionMatrix.java:418-419 | `Math.max(1, x)`: at least 1 and at least `x`, and equal to one of them |
| Metrics.CERUpTo | src/main/java/br/com/douglas444/streams/datastructures/DynamicConfusionMatrix.java:403-422 | the summed contributions of the first `n` rows are non-negative, vanish when those rows explain nothing, and are at most twice those rows' share of all explained samples |
| Metrics.HalfOfWholeShare | src/main/java/br/com/douglas444/streams/datastructures/DynamicConfusionMatrix.java:424 | half an amount within twice the whole share lies in [0, 1] |
| Metrics.MeasureCER | src/main/java/br/com/douglas444/streams/datastructures/DynamicConfusionMatrix.java:397-425 | `measureCER` lies in [0, 1] for every well-formed matrix |
| Metrics.ExplainedAtWithRow | src/main/java/br/com/douglas444/streams/datastructures/DynamicConfusionMatrix.java:133-137 | lazy row creation leaves existing explained counts alone and gives the new row 0 |
| Metrics.ExplainedAtWithNoveltyColumn | src/main/java/br/com/douglas444/streams/datastructures/DynamicConfusionMatrix.java:143-145 | a new novelty column changes no explained count |
| Metrics.ExplainedAtCountNovel | src/main/java/br/com/douglas444/streams/datastructures/DynamicConfusionMatrix.java:147-149 | counting a novel prediction raises only its row's explained count, by one |
| Metrics.ExplainedAtCountKnown | src/main/java/br/com/douglas444/streams/datastructures/DynamicConfusionMatrix.java:158-160 | counting a known prediction raises only its row's explained count, by one |
| Metrics.ExplainedAtAfterPrediction | src/main/java/br/com/douglas444/streams/datastructures/DynamicConfusionMatrix.java:130-164 | after `addPrediction` each row's explained count is as before (0 for a new row), plus one for the sample's row on success |
| Metrics.ExplainedUpToBump | src/main/java/br/com/douglas444/streams/datastructures/DynamicConfusionMatrix.java:393-395 | raising one row's explained count by `bump` raises the total over the first `n` rows by `bump` exactly when that row is among them |
| Metrics.ExplainedAfterBump | src/main/java/br/com/douglas444/streams/datastructures/DynamicConfusionMatrix.java:378-395 | a step that may append a row for `r` and raises only `r`'s explained count by `bump` raises the number of explained samples by `bump` and leaves every other label's count |
| Metrics.AddPredictionExplained | src/main/java/br/com/douglas444/streams/datastructures/DynamicConfusionMatrix.java:130-164 | a successful `addPrediction` raises `explained(r)` and the total by exactly one, a failed one raises neither, and no other row's count changes |
| Metrics.UnkRUpToBound | src/main/java/br/com/douglas444/streams/datastructures/DynamicConfusionMatrix.java:429-445 | with non-negative unknown counts the sum of `n` row values is finite and in [0, n] |
| Metrics.UnkRBounds | src/main/java/br/com/douglas444/streams/datastructures/DynamicConfusionMatrix.java:427-448 | with at least one row and non-negative unknown counts, UnkR is finite and lies in [0, 1] |
| ConfusionMatrix.AppendZeroToEachRow | src/main/java/br/com/douglas444/streams/datastructures/DynamicConfusionMatrix.java:88 | every row gains exactly one trailing zero and nothing else changes |
| ConfusionMatrix.CreditColumn | src/main/java/br/com/douglas444/streams/datastructures/DynamicConfusionMatrix.java:260-269 | crediting a column appends it to its owner's list, starting the list when absent, and does nothing for -1; equal to `Association.Credit` |
| ConfusionMatrix.DynamicConfusionMatrix.constructor | src/main/java/br/com/douglas444/streams/datastructures/DynamicConfusionMatrix.java:25-42 | a valid matrix in the empty state |
| ConfusionMatrix.DynamicConfusionMatrix.WithKnownLabels | src/main/java/br/com/douglas444/streams/datastructures/DynamicConfusionMatrix.java:44-62 | a valid matrix that registered every given label in order |
| ConfusionMatrix.DynamicConfusionMatrix.IsLabelKnown | src/main/java/br/com/douglas444/streams/datastructures/DynamicConfusionMatrix.java:64-66 | membership in the known-label list agrees with the index map that `addPrediction` checks |
| ConfusionMatrix.DynamicConfusionMatrix.AddKnownLabel | src/main/java/br/com/douglas444/streams/datastructures/DynamicConfusionMatrix.java:68-73 | keeps the object valid and moves it as `MatrixState.AddKnownLabel` |
| ConfusionMatrix.DynamicConfusionMatrix.AddRow | src/main/java/br/com/douglas444/streams/datastructures/DynamicConfusionMatrix.java:75-82 | keeps the object valid and moves it as `MatrixState.AddRow` |
| ConfusionMatrix.DynamicConfusionMatrix.AddKnownColumn | src/main/java/br/com/douglas444/streams/datastructures/DynamicConfusionMatrix.java:84-90 | keeps the object valid and moves it as `MatrixState.AddKnownColumn` |
| ConfusionMatrix.DynamicConfusionMatrix.AddNoveltyColumn | src/main/java/br/com/douglas444/streams/datastructures/DynamicConfusionMatrix.java:92-98 | keeps the object valid and moves it as `MatrixState.AddNoveltyColumn` |
| ConfusionMatrix.DynamicConfusionMatrix.UpdatedDelayed | src/main/java/br/com/douglas444/streams/datastructures/DynamicConfusionMatrix.java:100-114 | keeps the object valid; new state and outcome are those of `MatrixState.UpdatedDelayed` |
| ConfusionMatrix.DynamicConfusionMatrix.AddUnknown | src/main/java/br/com/douglas444/streams/datastructures/DynamicConfusionMatrix.java:116-128 | keeps the object valid and moves it as `MatrixState.AddUnknown` |
| ConfusionMatrix.DynamicConfusionMatrix.IncrementNovelty | src/main/java/br/com/douglas444/streams/datastructures/DynamicConfusionMatrix.java:147-149 | keeps the object valid and raises exactly one novelty cell, as `MatrixState.CountNovel` |
| ConfusionMatrix.DynamicConfusionMatrix.IncrementKnown | src/main/java/br/com/douglas444/streams/datastructures/DynamicConfusionMatrix.java:158-160 | keeps the object valid and raises exactly one known cell, as `MatrixState.CountKnown` |
| ConfusionMatrix.DynamicConfusionMatrix.AddPrediction | src/main/java/br/com/douglas444/streams/datastructures/DynamicConfusionMatrix.java:130-164 | keeps the object valid; new state and outcome are those of `MatrixState.AddPrediction` |
| ConfusionMatrix.DynamicConfusionMatrix.ColumnOwner | src/main/java/br/com/douglas444/streams/datastructures/DynamicConfusionMatrix.java:248-258 | the inner loop's final `label` is the column's owner: the label of the first row with the strictly greatest positive count, or -1 |
| ConfusionMatrix.DynamicConfusionMatrix.CalculateNoveltyAssociationByRow | src/main/java/br/com/douglas444/streams/datastructures/DynamicConfusionMatrix.java:242-274 | the nested loop builds exactly `Association.NoveltyAssociationByRow` of the current state |
| Examples.LeaderExamples | src/main/java/br/com/douglas444/streams/datastructures/DynamicConfusionMatrix.java:248-258 | counts [3, 0, 5] pick the third row, [4, 4, 0] the first (tie goes to the earliest), and [0, 0] none |
| Examples.EightTwo | src/main/java/br/com/douglas444/streams/datastructures/DynamicConfusionMatrix.java:7-23 | a concrete matrix with known labels 1 and 2, each with its row, satisfying the shape invariant |
| Examples.CERExample | src/main/java/br/com/douglas444/streams/datastructures/DynamicConfusionMatrix.java:397-425 | label 1 with 8 correct and 2 wrong known predictions and an empty row for label 2 give CER 0.1 |
| Examples.NineOneAndEmpty | src/main/java/br/com/douglas444/streams/datastructures/DynamicConfusionMatrix.java:7-23 | a concrete two-row matrix satisfying the shape invariant |
| Examples.UnkRExample | src/main/java/br/com/douglas444/streams/datastructures/DynamicConfusionMatrix.java:427-448 | rows with (explained 9, unknown 1) and (0, 0) give UnkR 0.05 |

## Left out

- `toString` (lines 166-240) is diagnostic text rendering with `String.format` padding and
  is not modelled.
- Java's 32-bit `int` is modelled as an unbounded integer. Cell counts, sums and the
  decremented unknown count do not wrap around.
- `measureCER` and `measureUnkR` compute in `double`; the model uses exact `real` ratios.
  Rounding is not modelled. NaN and the infinities are one value, `NotFinite`.
- `HashMap` and `ArrayList` are Dafny `map` and `seq`. Hashing and the linear cost of
  `List.contains` are not modelled.
- The queries take a `State`. A snapshot of the object is passed explicitly rather than
  read through `this`.
- The queries' `NullPointerException`s are preconditions rather than modelled exceptions:
  - `measureTP` throws when the label has no row (line 279) or its association list names
    a column with no novelty index (lines 292-293): `MeasureTP` requires `l in s.rowLabels`
    and `ListsNovelties`.
  - `measureFP` never reads the label's row; it throws when the label's list names a
    column with no novelty index and some other row exists (lines 321-329): `MeasureFP`
    requires `ListsNovelties`, also in the case with no other row, where the code would
    not throw.
  - `measureFN` throws when the label has no row (line 342); it never looks a listed
    column up, it only tests membership (lines 359-360): `MeasureFN` requires only
    `l in s.rowLabels`.
  - `measureTN` never reads the label's row; it throws when `measureTP` throws for some
    other row (line 373): `MeasureTN` requires `ListsNovelties` for every other row.
  - `numberOfExplainedSamplesPerLabel` throws when the label has no row (line 380):
    `Explained` requires `l in s.rowLabels`.
- Metrics.MeasureTP, Metrics.MeasureFP, Metrics.MeasureFN: their own contracts state only
  that the count is non-negative. Their relations are proved as separate lemmas
  (`TNComplementsTP`, `TPPlusFN`) and through the CER bound of `MeasureCER`.
- ConfusionMatrix.DynamicConfusionMatrix.AddRow, AddNoveltyColumn: these require a label
  with no row, or no novelty column. Every caller in the class checks this first. Calling
  them otherwise would duplicate a row or column, which the source never does.
- `Sample.java`, `SampleDistanceComparator.java`, `StreamsFileReader.java`,
  `StreamsProcessorExecutor.java` and `StreamsProcessor.java` are not part of this model:
  - the first two are floating-point vector arithmetic;
  - `StreamsFileReader.java` is file I/O and parsing;
  - `StreamsProcessorExecutor.java` is the driver loop and its logging;
  - `StreamsProcessor.java` is an interface with no behaviour.
