/** The state of a dynamic confusion matrix as a value, its shape invariant, and the
    growth and counting operations as transitions from one state to the next. */
module MatrixState {
  import opened Sums

  /** The two usage errors the matrix reports instead of recording a sample. */
  datatype Error =
    | UnregisteredKnownLabel  // a non-novel prediction names a label with no known column
    | UnknownRowLabel         // a deferred sample is resolved for a true label with no row

  datatype Outcome = Ok | Fail(error: Error)

  /** One field per field of the matrix object: three label registries (rows = true
      labels, known columns, novelty columns), the two column counters, the three
      label-to-index maps, the two count tables (row-major) and the per-row count of
      deferred ("unknown") samples. */
  datatype State = State(
    rowLabels: seq<int>,
    knownColumnLabels: seq<int>,
    noveltyColumnLabels: seq<int>,
    knownColumnsCount: int,
    noveltyColumnsCount: int,
    knownColumnIndexByLabel: map<int, int>,
    noveltyColumnIndexByLabel: map<int, int>,
    rowIndexByLabel: map<int, int>,
    knownColumnsMatrix: seq<seq<int>>,
    noveltyColumnsMatrix: seq<seq<int>>,
    unknownColumn: seq<int>)

  /** `index` maps every label of `labels` to one of its positions. */
  ghost predicate Indexes(labels: seq<int>, index: map<int, int>)
  {
    (forall k :: k in index ==> 0 <= index[k] < |labels| && labels[index[k]] == k) &&
    (forall i :: 0 <= i < |labels| ==> labels[i] in index)
  }

  /** `index` is the inverse of `labels`, which therefore holds no label twice. */
  ghost predicate IndexesDistinct(labels: seq<int>, index: map<int, int>)
  {
    Indexes(labels, index) && forall i :: 0 <= i < |labels| ==> index[labels[i]] == i
  }

  /** `m` has `rows` rows of `columns` cells each. */
  ghost predicate Grid(m: seq<seq<int>>, rows: int, columns: int)
  {
    |m| == rows && forall i :: 0 <= i < |m| ==> |m[i]| == columns
  }

  ghost predicate NonNegative(m: seq<seq<int>>)
  {
    forall i, j :: 0 <= i < |m| && 0 <= j < |m[i]| ==> m[i][j] >= 0
  }

  /** The part of the shape invariant the novelty association relies on: one novelty
      row per row label, one cell per novelty column, and the novelty index map the
      inverse of the novelty registry. */
  ghost predicate NoveltyShaped(s: State)
  {
    IndexesDistinct(s.noveltyColumnLabels, s.noveltyColumnIndexByLabel) &&
    Grid(s.noveltyColumnsMatrix, |s.rowLabels|, |s.noveltyColumnLabels|)
  }

  /** The shape invariant: one table row and one unknown count per row label, one cell
      per column in every row, the counters equal to the registry sizes, each index map
      pointing back into its registry (the known-column map points to one of possibly
      several equal labels), and counts that never went below zero. */
  ghost predicate Wf(s: State)
  {
    s.knownColumnsCount == |s.knownColumnLabels| &&
    s.noveltyColumnsCount == |s.noveltyColumnLabels| &&
    IndexesDistinct(s.rowLabels, s.rowIndexByLabel) &&
    Indexes(s.knownColumnLabels, s.knownColumnIndexByLabel) &&
    Grid(s.knownColumnsMatrix, |s.rowLabels|, |s.knownColumnLabels|) &&
    NoveltyShaped(s) &&
    |s.unknownColumn| == |s.rowLabels| &&
    NonNegative(s.knownColumnsMatrix) &&
    NonNegative(s.noveltyColumnsMatrix)
  }

  /** The matrix of the no-argument constructor. */
  function Empty(): (s: State)
    ensures Wf(s) && s.rowLabels == [] && s.knownColumnLabels == [] && s.noveltyColumnLabels == []
  {
    State([], [], [], 0, 0, map[], map[], map[], [], [], [])
  }

  /** `m` with one more zero cell at the end of every row. */
  function WithZeroColumn(m: seq<seq<int>>): (r: seq<seq<int>>)
    ensures |r| == |m| && forall i :: 0 <= i < |m| ==> r[i] == m[i] + [0]
  {
    if m == [] then [] else WithZeroColumn(m[..|m| - 1]) + [m[|m| - 1] + [0]]
  }

  /** Appends a zero-filled row (and a zero unknown count) for a new true label. */
  function AddRow(s: State, rowLabel: int): (r: State)
    requires Wf(s) && rowLabel !in s.rowLabels
    ensures Wf(r)
  {
    s.(rowIndexByLabel := s.rowIndexByLabel[rowLabel := |s.rowLabels|],
       rowLabels := s.rowLabels + [rowLabel],
       knownColumnsMatrix := s.knownColumnsMatrix + [Zeros(s.knownColumnsCount)],
       noveltyColumnsMatrix := s.noveltyColumnsMatrix + [Zeros(s.noveltyColumnsCount)],
       unknownColumn := s.unknownColumn + [0])
  }

  /** Appends a known column, pointing the label's index at it even if the label
      already had a column. */
  function AddKnownColumn(s: State, columnLabel: int): (r: State)
    requires Wf(s)
    ensures Wf(r)
  {
    s.(knownColumnLabels := s.knownColumnLabels + [columnLabel],
       knownColumnIndexByLabel := s.knownColumnIndexByLabel[columnLabel := s.knownColumnsCount],
       knownColumnsCount := s.knownColumnsCount + 1,
       knownColumnsMatrix := WithZeroColumn(s.knownColumnsMatrix))
  }

  /** Appends a novelty column for a label not seen as novel before. */
  function AddNoveltyColumn(s: State, columnLabel: int): (r: State)
    requires Wf(s) && columnLabel !in s.noveltyColumnLabels
    ensures Wf(r)
  {
    s.(noveltyColumnLabels := s.noveltyColumnLabels + [columnLabel],
       noveltyColumnIndexByLabel := s.noveltyColumnIndexByLabel[columnLabel := s.noveltyColumnsCount],
       noveltyColumnsCount := s.noveltyColumnsCount + 1,
       noveltyColumnsMatrix := WithZeroColumn(s.noveltyColumnsMatrix))
  }

  /** `addKnownLabel`: a new known column, and a row for the label if it has none. */
  function AddKnownLabel(s: State, knownLabel: int): (r: State)
    requires Wf(s)
    ensures Wf(r) && r.knownColumnLabels == s.knownColumnLabels + [knownLabel]
  {
    var t := AddKnownColumn(s, knownLabel);
    if knownLabel in t.rowLabels then t else AddRow(t, knownLabel)
  }

  /** Registers `labels` one after the other, as the seeding constructor does. */
  function RegisterAll(s: State, labels: seq<int>): (r: State)
    requires Wf(s)
    ensures Wf(r) && r.knownColumnLabels == s.knownColumnLabels + labels
    decreases |labels|
  {
    if labels == [] then s
    else
      var init, last := labels[..|labels| - 1], labels[|labels| - 1];
      assert s.knownColumnLabels + labels == (s.knownColumnLabels + init) + [last];
      AddKnownLabel(RegisterAll(s, init), last)
  }

  /** Registering one more label of the list is one more `addKnownLabel`. */
  lemma RegisterAllStep(s: State, labels: seq<int>, i: int)
    requires Wf(s) && 0 <= i < |labels|
    ensures RegisterAll(s, labels[..i + 1]) == AddKnownLabel(RegisterAll(s, labels[..i]), labels[i])
  {
    assert labels[..i + 1][..i] == labels[..i];
  }

  /** The row-creation step shared by the recording operations. */
  function WithRow(s: State, rowLabel: int): (r: State)
    requires Wf(s)
    ensures Wf(r) && rowLabel in r.rowLabels
  {
    if rowLabel in s.rowLabels then s else AddRow(s, rowLabel)
  }

  /** `m` with cell (i, j) raised by one: no other cell and no row length changes. */
  function Increment(m: seq<seq<int>>, i: int, j: int): (r: seq<seq<int>>)
    requires 0 <= i < |m| && 0 <= j < |m[i]|
    ensures |r| == |m| && forall k :: 0 <= k < |m| ==> |r[k]| == |m[k]|
    ensures forall k, l :: 0 <= k < |m| && 0 <= l < |m[k]| ==>
      r[k][l] == m[k][l] + if k == i && l == j then 1 else 0
  {
    m[i := m[i][j := m[i][j] + 1]]
  }

  /** The novelty-column creation step of a novel prediction. */
  function WithNoveltyColumn(s: State, columnLabel: int): (r: State)
    requires Wf(s)
    ensures Wf(r) && columnLabel in r.noveltyColumnIndexByLabel
    ensures r.rowLabels == s.rowLabels && r.rowIndexByLabel == s.rowIndexByLabel
  {
    if columnLabel in s.noveltyColumnLabels then s else AddNoveltyColumn(s, columnLabel)
  }

  /** One more sample of row `row` predicted as novelty column `column`. */
  function CountNovel(s: State, row: int, column: int): (r: State)
    requires Wf(s) && 0 <= row < |s.rowLabels| && 0 <= column < |s.noveltyColumnLabels|
    ensures Wf(r)
  {
    s.(noveltyColumnsMatrix := Increment(s.noveltyColumnsMatrix, row, column))
  }

  /** One more sample of row `row` predicted as known column `column`. */
  function CountKnown(s: State, row: int, column: int): (r: State)
    requires Wf(s) && 0 <= row < |s.rowLabels| && 0 <= column < |s.knownColumnLabels|
    ensures Wf(r)
  {
    s.(knownColumnsMatrix := Increment(s.knownColumnsMatrix, row, column))
  }

  /** `addPrediction`: creates the row if needed, then either counts a novel prediction
      (creating its novelty column if needed) or a known one, failing when the known
      label has no column; the row created before that failure stays. */
  function AddPrediction(s: State, realLabel: int, predictedLabel: int, isNovel: bool): (r: (State, Outcome))
    requires Wf(s)
    ensures Wf(r.0)
  {
    var t := WithRow(s, realLabel);
    var row := t.rowIndexByLabel[realLabel];
    if isNovel then
      var u := WithNoveltyColumn(t, predictedLabel);
      (CountNovel(u, row, u.noveltyColumnIndexByLabel[predictedLabel]), Ok)
    else if predictedLabel !in t.knownColumnIndexByLabel then
      (t, Fail(UnregisteredKnownLabel))
    else
      (CountKnown(t, row, t.knownColumnIndexByLabel[predictedLabel]), Ok)
  }

  /** `addUnknown`: creates the row if needed and counts one more deferred sample. */
  function AddUnknown(s: State, realLabel: int): (r: State)
    requires Wf(s)
    ensures Wf(r)
  {
    var t := WithRow(s, realLabel);
    var row := t.rowIndexByLabel[realLabel];
    t.(unknownColumn := t.unknownColumn[row := t.unknownColumn[row] + 1])
  }

  /** `updatedDelayed`: resolves a deferred sample of an existing row: one deferred
      sample fewer (no floor at zero), then the prediction is recorded. */
  function UpdatedDelayed(s: State, realLabel: int, predictedLabel: int, isNovel: bool): (r: (State, Outcome))
    requires Wf(s)
    ensures Wf(r.0)
  {
    if realLabel !in s.rowLabels then (s, Fail(UnknownRowLabel))
    else
      var row := s.rowIndexByLabel[realLabel];
      var t := s.(unknownColumn := s.unknownColumn[row := s.unknownColumn[row] - 1]);
      AddPrediction(t, realLabel, predictedLabel, isNovel)
  }

  /** Cell (i, j) of `m`, or 0 where `m` has no such cell (a row or column that a
      transition has just appended). */
  function CellOr0(m: seq<seq<int>>, i: int, j: int): int
  {
    if 0 <= i < |m| && 0 <= j < |m[i]| then m[i][j] else 0
  }

  /** Every count of the tables and every deferred count is zero. */
  ghost predicate AllZero(s: State)
  {
    (forall i, j :: 0 <= i < |s.knownColumnsMatrix| && 0 <= j < |s.knownColumnsMatrix[i]| ==> s.knownColumnsMatrix[i][j] == 0) &&
    (forall i, j :: 0 <= i < |s.noveltyColumnsMatrix| && 0 <= j < |s.noveltyColumnsMatrix[i]| ==> s.noveltyColumnsMatrix[i][j] == 0) &&
    (forall i :: 0 <= i < |s.unknownColumn| ==> s.unknownColumn[i] == 0)
  }

  /** After `addKnownLabel(k)` the label is known, its index points at the new last
      column, a row for it exists, every earlier row has gained exactly one trailing
      zero known cell, and no count has changed. */
  lemma AddKnownLabelEffect(s: State, k: int)
    requires Wf(s)
    ensures var t := AddKnownLabel(s, k);
      k in t.knownColumnIndexByLabel && t.knownColumnIndexByLabel[k] == |s.knownColumnLabels| &&
      t.knownColumnLabels == s.knownColumnLabels + [k] &&
      t.noveltyColumnLabels == s.noveltyColumnLabels &&
      t.rowLabels == (if k in s.rowLabels then s.rowLabels else s.rowLabels + [k]) &&
      (forall i :: 0 <= i < |s.rowLabels| ==>
         t.knownColumnsMatrix[i] == s.knownColumnsMatrix[i] + [0] &&
         t.noveltyColumnsMatrix[i] == s.noveltyColumnsMatrix[i]) &&
      (forall j :: 0 <= j < |t.knownColumnLabels| ==> CellOr0(t.knownColumnsMatrix, |s.rowLabels|, j) == 0) &&
      (forall j :: 0 <= j < |t.noveltyColumnLabels| ==> CellOr0(t.noveltyColumnsMatrix, |s.rowLabels|, j) == 0) &&
      t.unknownColumn == s.unknownColumn + (if k in s.rowLabels then [] else [0])
  {
  }

  /** Registering a known label adds no count. */
  lemma AddKnownLabelKeepsZero(s: State, k: int)
    requires Wf(s) && AllZero(s)
    ensures AllZero(AddKnownLabel(s, k))
  {
    var t := AddKnownColumn(s, k);
    forall i, j | 0 <= i < |t.knownColumnsMatrix| && 0 <= j < |t.knownColumnsMatrix[i]|
      ensures t.knownColumnsMatrix[i][j] == 0
    {
      assert t.knownColumnsMatrix[i] == s.knownColumnsMatrix[i] + [0];
    }
    if k !in t.rowLabels {
      AddRowKeepsZero(t, k);
    }
  }

  /** A new row starts with zero counts. */
  lemma AddRowKeepsZero(s: State, r: int)
    requires Wf(s) && AllZero(s) && r !in s.rowLabels
    ensures AllZero(AddRow(s, r))
  {
    var t := AddRow(s, r);
    assert forall i :: 0 <= i < |s.rowLabels| ==>
      t.knownColumnsMatrix[i] == s.knownColumnsMatrix[i] && t.noveltyColumnsMatrix[i] == s.noveltyColumnsMatrix[i];
  }

  /** Registering a known label keeps every earlier row and known label. */
  lemma AddKnownLabelGrows(s: State, k: int)
    requires Wf(s)
    ensures var t := AddKnownLabel(s, k);
      k in t.knownColumnIndexByLabel && k in t.rowLabels &&
      t.knownColumnLabels == s.knownColumnLabels + [k] &&
      (forall l :: l in s.rowLabels ==> l in t.rowLabels) &&
      (forall l :: l in s.knownColumnIndexByLabel ==> l in t.knownColumnIndexByLabel)
  {
  }

  /** The seeding constructor's known registry is the given list, in order and with any
      duplicates, and every given label is known and has a row. */
  lemma RegisterAllEffect(s: State, labels: seq<int>)
    requires Wf(s)
    ensures var t := RegisterAll(s, labels);
      t.knownColumnLabels == s.knownColumnLabels + labels &&
      forall k :: k in labels ==> k in t.knownColumnIndexByLabel && k in t.rowLabels
  {
    forall k | k in labels
      ensures var t := RegisterAll(s, labels); k in t.knownColumnIndexByLabel && k in t.rowLabels
    {
      RegisterAllKnows(s, labels, k);
    }
  }

  /** A given label ends up known and with a row, whatever is registered after it. */
  lemma {:induction false} RegisterAllKnows(s: State, labels: seq<int>, k: int)
    requires Wf(s) && k in labels
    ensures var t := RegisterAll(s, labels); k in t.knownColumnIndexByLabel && k in t.rowLabels
  {
    var init, last := labels[..|labels| - 1], labels[|labels| - 1];
    var t := RegisterAll(s, init);
    AddKnownLabelGrows(t, last);
    if k != last {
      assert labels == init + [last];
      RegisterAllKnows(s, init, k);
    }
  }

  /** The seeding constructor starts from all-zero counts. */
  lemma {:induction false} RegisterAllKeepsZero(s: State, labels: seq<int>)
    requires Wf(s) && AllZero(s)
    ensures AllZero(RegisterAll(s, labels))
  {
    if labels != [] {
      var init := labels[..|labels| - 1];
      RegisterAllKeepsZero(s, init);
      AddKnownLabelKeepsZero(RegisterAll(s, init), labels[|labels| - 1]);
    }
  }

  /** `addPrediction(r, p, isNovel)` fails exactly when a non-novel prediction names a
      label with no known column, and then only with that error; it leaves `r` with a
      row (a new, zero-filled one appended if it had none), keeps the known registry,
      appends a novelty column exactly for a novel `p` seen for the first time, and
      gives a new row a zero unknown count while keeping every other. */
  lemma AddPredictionOutcome(s: State, r: int, p: int, isNovel: bool)
    requires Wf(s)
    ensures var (t, outcome) := AddPrediction(s, r, p, isNovel);
      (outcome == Fail(UnregisteredKnownLabel) <==> !isNovel && p !in s.knownColumnLabels) &&
      (outcome.Fail? ==> outcome == Fail(UnregisteredKnownLabel)) &&
      r in t.rowLabels &&
      t.rowLabels == (if r in s.rowLabels then s.rowLabels else s.rowLabels + [r]) &&
      t.knownColumnLabels == s.knownColumnLabels &&
      t.noveltyColumnLabels == (if isNovel && p !in s.noveltyColumnLabels then s.noveltyColumnLabels + [p] else s.noveltyColumnLabels) &&
      t.unknownColumn == s.unknownColumn + (if r in s.rowLabels then [] else [0])
  {
  }

  /** On success of a known prediction exactly the known (r, p) cell rises by one;
      otherwise no known cell changes (cells of a new row are 0). */
  lemma AddPredictionKnownCells(s: State, r: int, p: int, isNovel: bool)
    requires Wf(s)
    ensures var (t, outcome) := AddPrediction(s, r, p, isNovel);
      forall i, j :: 0 <= i < |t.rowLabels| && 0 <= j < |t.knownColumnLabels| ==>
        t.knownColumnsMatrix[i][j] == CellOr0(s.knownColumnsMatrix, i, j) +
          (if outcome.Ok? && !isNovel && i == t.rowIndexByLabel[r] && j == t.knownColumnIndexByLabel[p] then 1 else 0)
  {
    var w := WithRow(s, r);
    WithRowEffect(s, r);
    if isNovel {
      var u := WithNoveltyColumn(w, p);
      WithNoveltyColumnEffect(w, p);
      var t := CountNovel(u, w.rowIndexByLabel[r], u.noveltyColumnIndexByLabel[p]);
      assert t.knownColumnsMatrix == w.knownColumnsMatrix;
    } else if p in w.knownColumnIndexByLabel {
      KnownPredictionCells(s, r, p);
    }
  }

  /** A known prediction of a registered label raises the known (r, p) cell by one and
      leaves every other known cell as it was (0 in a new row). */
  lemma KnownPredictionCells(s: State, r: int, p: int)
    requires Wf(s) && p in s.knownColumnIndexByLabel
    ensures var w := WithRow(s, r);
      var t := CountKnown(w, w.rowIndexByLabel[r], w.knownColumnIndexByLabel[p]);
      forall i, j :: 0 <= i < |t.rowLabels| && 0 <= j < |t.knownColumnLabels| ==>
        t.knownColumnsMatrix[i][j] == CellOr0(s.knownColumnsMatrix, i, j) +
          (if i == w.rowIndexByLabel[r] && j == w.knownColumnIndexByLabel[p] then 1 else 0)
  {
    var w := WithRow(s, r);
    WithRowEffect(s, r);
    var row, column := w.rowIndexByLabel[r], w.knownColumnIndexByLabel[p];
    var t := CountKnown(w, row, column);
    forall i, j | 0 <= i < |t.rowLabels| && 0 <= j < |t.knownColumnLabels|
      ensures t.knownColumnsMatrix[i][j] == CellOr0(s.knownColumnsMatrix, i, j) +
        (if i == row && j == column then 1 else 0)
    {
      assert t.knownColumnsMatrix[i][j] == w.knownColumnsMatrix[i][j] + (if i == row && j == column then 1 else 0);
    }
  }

  /** A novel prediction raises exactly the novelty (r, p) cell by one; otherwise no
      novelty cell changes (cells of a new row or column are 0). */
  lemma AddPredictionNoveltyCells(s: State, r: int, p: int, isNovel: bool)
    requires Wf(s)
    ensures var (t, outcome) := AddPrediction(s, r, p, isNovel);
      forall i, j :: 0 <= i < |t.rowLabels| && 0 <= j < |t.noveltyColumnLabels| ==>
        t.noveltyColumnsMatrix[i][j] == CellOr0(s.noveltyColumnsMatrix, i, j) +
          (if isNovel && i == t.rowIndexByLabel[r] && j == t.noveltyColumnIndexByLabel[p] then 1 else 0)
  {
    WithRowEffect(s, r);
    if isNovel {
      NovelPredictionCells(s, r, p);
    }
  }

  /** A novel prediction raises the novelty (r, p) cell by one and leaves every other
      novelty cell as it was (0 in a new row or column). */
  lemma NovelPredictionCells(s: State, r: int, p: int)
    requires Wf(s)
    ensures var w := WithRow(s, r);
      var u := WithNoveltyColumn(w, p);
      var t := CountNovel(u, w.rowIndexByLabel[r], u.noveltyColumnIndexByLabel[p]);
      forall i, j :: 0 <= i < |t.rowLabels| && 0 <= j < |t.noveltyColumnLabels| ==>
        t.noveltyColumnsMatrix[i][j] == CellOr0(s.noveltyColumnsMatrix, i, j) +
          (if i == w.rowIndexByLabel[r] && j == u.noveltyColumnIndexByLabel[p] then 1 else 0)
  {
    var w := WithRow(s, r);
    var u := WithNoveltyColumn(w, p);
    GrownNoveltyCells(s, r, p);
  }

  /** After creating the row and the novelty column, every novelty cell is the old one,
      or 0 where it is new. */
  lemma GrownNoveltyCells(s: State, r: int, p: int)
    requires Wf(s)
    ensures var u := WithNoveltyColumn(WithRow(s, r), p);
      forall i, j :: 0 <= i < |u.rowLabels| && 0 <= j < |u.noveltyColumnLabels| ==>
        u.noveltyColumnsMatrix[i][j] == CellOr0(s.noveltyColumnsMatrix, i, j)
  {
    var w := WithRow(s, r);
    WithRowEffect(s, r);
    WithNoveltyColumnEffect(w, p);
    var u := WithNoveltyColumn(w, p);
    forall i, j | 0 <= i < |u.rowLabels| && 0 <= j < |u.noveltyColumnLabels|
      ensures u.noveltyColumnsMatrix[i][j] == CellOr0(s.noveltyColumnsMatrix, i, j)
    {
      assert u.noveltyColumnsMatrix[i][j] == CellOr0(w.noveltyColumnsMatrix, i, j);
      if j < |w.noveltyColumnLabels| {
        assert CellOr0(w.noveltyColumnsMatrix, i, j) == w.noveltyColumnsMatrix[i][j];
      }
    }
  }

  /** Lazy row creation: a zero row (and unknown count) for a label that had none;
      every existing row, index and count is as before. */
  lemma WithRowEffect(s: State, r: int)
    requires Wf(s)
    ensures var t := WithRow(s, r);
      t.rowLabels == (if r in s.rowLabels then s.rowLabels else s.rowLabels + [r]) &&
      (forall l :: l in s.rowIndexByLabel ==> l in t.rowIndexByLabel && t.rowIndexByLabel[l] == s.rowIndexByLabel[l]) &&
      t.knownColumnLabels == s.knownColumnLabels && t.knownColumnIndexByLabel == s.knownColumnIndexByLabel &&
      t.noveltyColumnLabels == s.noveltyColumnLabels && t.noveltyColumnIndexByLabel == s.noveltyColumnIndexByLabel &&
      t.unknownColumn == s.unknownColumn + (if r in s.rowLabels then [] else [0]) &&
      (forall i, j :: 0 <= i < |t.rowLabels| && 0 <= j < |t.knownColumnLabels| ==>
         t.knownColumnsMatrix[i][j] == CellOr0(s.knownColumnsMatrix, i, j)) &&
      (forall i, j :: 0 <= i < |t.rowLabels| && 0 <= j < |t.noveltyColumnLabels| ==>
         t.noveltyColumnsMatrix[i][j] == CellOr0(s.noveltyColumnsMatrix, i, j))
  {
  }

  /** Lazy novelty-column creation: a zero column for a label that had none; rows,
      known cells and every existing novelty cell are as before. */
  lemma WithNoveltyColumnEffect(s: State, c: int)
    requires Wf(s)
    ensures var t := WithNoveltyColumn(s, c);
      t.noveltyColumnLabels == (if c in s.noveltyColumnLabels then s.noveltyColumnLabels else s.noveltyColumnLabels + [c]) &&
      t.knownColumnLabels == s.knownColumnLabels && t.knownColumnIndexByLabel == s.knownColumnIndexByLabel &&
      t.knownColumnsMatrix == s.knownColumnsMatrix && t.unknownColumn == s.unknownColumn &&
      (forall i, j :: 0 <= i < |t.rowLabels| && 0 <= j < |t.noveltyColumnLabels| ==>
         t.noveltyColumnsMatrix[i][j] == CellOr0(s.noveltyColumnsMatrix, i, j))
  {
  }

  /** `addUnknown(r)` creates the row if needed and raises `r`'s deferred count, and
      only that count, by one; no cell changes. */
  lemma AddUnknownEffect(s: State, r: int)
    requires Wf(s)
    ensures var t := AddUnknown(s, r);
      r in t.rowLabels &&
      t.rowLabels == (if r in s.rowLabels then s.rowLabels else s.rowLabels + [r]) &&
      t.knownColumnLabels == s.knownColumnLabels && t.noveltyColumnLabels == s.noveltyColumnLabels &&
      (forall i, j :: 0 <= i < |t.rowLabels| && 0 <= j < |t.knownColumnLabels| ==>
         t.knownColumnsMatrix[i][j] == CellOr0(s.knownColumnsMatrix, i, j)) &&
      (forall i, j :: 0 <= i < |t.rowLabels| && 0 <= j < |t.noveltyColumnLabels| ==>
         t.noveltyColumnsMatrix[i][j] == CellOr0(s.noveltyColumnsMatrix, i, j)) &&
      (forall i :: 0 <= i < |t.rowLabels| ==>
         t.unknownColumn[i] == (if i < |s.rowLabels| then s.unknownColumn[i] else 0) +
           (if i == t.rowIndexByLabel[r] then 1 else 0))
  {
  }

  /** `updatedDelayed(r, p, isNovel)` fails without changing anything when `r` has no
      row; otherwise `r`'s deferred count drops by one (possibly below zero), every other
      deferred count stays, and registries, tables and outcome are exactly those of
      `addPrediction(r, p, isNovel)`. */
  lemma UpdatedDelayedEffect(s: State, r: int, p: int, isNovel: bool)
    requires Wf(s)
    ensures r !in s.rowLabels ==> UpdatedDelayed(s, r, p, isNovel) == (s, Fail(UnknownRowLabel))
    ensures r in s.rowLabels ==>
      var (t, outcome) := UpdatedDelayed(s, r, p, isNovel);
      var (t', outcome') := AddPrediction(s, r, p, isNovel);
      var row := s.rowIndexByLabel[r];
      outcome == outcome' &&
      t.rowLabels == t'.rowLabels && t.knownColumnLabels == t'.knownColumnLabels &&
      t.noveltyColumnLabels == t'.noveltyColumnLabels &&
      t.knownColumnsMatrix == t'.knownColumnsMatrix && t.noveltyColumnsMatrix == t'.noveltyColumnsMatrix &&
      t.unknownColumn[row] == s.unknownColumn[row] - 1 &&
      forall i :: 0 <= i < |s.rowLabels| && i != row ==> t.unknownColumn[i] == s.unknownColumn[i]
  {
  }
}
