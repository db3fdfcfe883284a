/** The matrix object itself: one mutable field per field of `DynamicConfusionMatrix`,
    and one method per operation that changes it, each proved to move the object's
    snapshot exactly as the matching transition of `MatrixState` does. The score
    queries read the snapshot through the functions of `Association` and `Metrics`. */
module ConfusionMatrix {
  import Sums
  import MatrixState
  import Association

  /** `row.add(0)` for every row of `m`. */
  method AppendZeroToEachRow(m: seq<seq<int>>) returns (r: seq<seq<int>>)
    ensures |r| == |m| && forall i :: 0 <= i < |m| ==> r[i] == m[i] + [0]
  {
    r := [];
    var i := 0;
    while i < |m|
      invariant 0 <= i <= |m|
      invariant |r| == i && forall k :: 0 <= k < i ==> r[k] == m[k] + [0]
    {
      r := r + [m[i] + [0]];
      i := i + 1;
    }
  }

  /** Appends novelty column `c` to the list of `leader`, starting the list if it has
      none, unless `leader` is the "no row" label -1. */
  method CreditColumn(association: map<int, seq<int>>, leader: int, c: int) returns (r: map<int, seq<int>>)
    ensures r == Association.Credit(association, leader, c)
  {
    r := association;
    if leader != -1 {
      if leader in r {
        r := r[leader := r[leader] + [c]];
      } else {
        r := r[leader := [c]];
        assert [] + [c] == [c];
      }
    }
  }

  class DynamicConfusionMatrix {
    var rowLabels: seq<int>
    var knownColumnLabels: seq<int>
    var noveltyColumnLabels: seq<int>
    var knownColumnsCount: int
    var noveltyColumnsCount: int
    var knownColumnIndexByLabel: map<int, int>
    var noveltyColumnIndexByLabel: map<int, int>
    var rowIndexByLabel: map<int, int>
    var knownColumnsMatrix: seq<seq<int>>
    var noveltyColumnsMatrix: seq<seq<int>>
    var unknownColumn: seq<int>

    /** The current field values as a `MatrixState.State`. */
    function Snapshot(): MatrixState.State
      reads this
    {
      MatrixState.State(rowLabels, knownColumnLabels, noveltyColumnLabels,
                        knownColumnsCount, noveltyColumnsCount,
                        knownColumnIndexByLabel, noveltyColumnIndexByLabel, rowIndexByLabel,
                        knownColumnsMatrix, noveltyColumnsMatrix, unknownColumn)
    }

    ghost predicate Valid()
      reads this
    {
      MatrixState.Wf(Snapshot())
    }

    /** An empty matrix: no rows, no columns. */
    constructor ()
      ensures Valid() && Snapshot() == MatrixState.Empty()
    {
      rowLabels, knownColumnLabels, noveltyColumnLabels := [], [], [];
      knownColumnsCount, noveltyColumnsCount := 0, 0;
      knownColumnIndexByLabel, noveltyColumnIndexByLabel, rowIndexByLabel := map[], map[], map[];
      knownColumnsMatrix, noveltyColumnsMatrix, unknownColumn := [], [], [];
    }

    /** An empty matrix on which every label of `knownLabels` is registered in turn. */
    constructor WithKnownLabels(knownLabels: seq<int>)
      ensures Valid() && Snapshot() == MatrixState.RegisterAll(MatrixState.Empty(), knownLabels)
    {
      rowLabels, knownColumnLabels, noveltyColumnLabels := [], [], [];
      knownColumnsCount, noveltyColumnsCount := 0, 0;
      knownColumnIndexByLabel, noveltyColumnIndexByLabel, rowIndexByLabel := map[], map[], map[];
      knownColumnsMatrix, noveltyColumnsMatrix, unknownColumn := [], [], [];
      new;
      var i := 0;
      while i < |knownLabels|
        invariant 0 <= i <= |knownLabels|
        invariant Valid() && Snapshot() == MatrixState.RegisterAll(MatrixState.Empty(), knownLabels[..i])
      {
        MatrixState.RegisterAllStep(MatrixState.Empty(), knownLabels, i);
        AddKnownLabel(knownLabels[i]);
        i := i + 1;
      }
      assert knownLabels[..i] == knownLabels;
    }

    /** A label is known when it has a known column; the registry and the index map
        that `AddPrediction` consults agree on that. */
    function IsLabelKnown(l: int): (b: bool)
      requires Valid()
      reads this
      ensures b <==> l in knownColumnIndexByLabel
    {
      l in knownColumnLabels
    }

    method AddKnownLabel(knownLabel: int)
      requires Valid()
      modifies this
      ensures Valid() && Snapshot() == MatrixState.AddKnownLabel(old(Snapshot()), knownLabel)
    {
      AddKnownColumn(knownLabel);
      if knownLabel !in rowLabels {
        AddRow(knownLabel);
      }
    }

    /** Only ever called for a label with no row. */
    method AddRow(rowLabel: int)
      requires Valid() && rowLabel !in rowLabels
      modifies this
      ensures Valid() && Snapshot() == MatrixState.AddRow(old(Snapshot()), rowLabel)
    {
      ghost var s := Snapshot();
      rowIndexByLabel := rowIndexByLabel[rowLabel := |rowLabels|];
      rowLabels := rowLabels + [rowLabel];
      knownColumnsMatrix := knownColumnsMatrix + [Sums.Zeros(knownColumnsCount)];
      noveltyColumnsMatrix := noveltyColumnsMatrix + [Sums.Zeros(noveltyColumnsCount)];
      unknownColumn := unknownColumn + [0];
      assert Snapshot() == MatrixState.AddRow(s, rowLabel);
    }

    method AddKnownColumn(columnLabel: int)
      requires Valid()
      modifies this
      ensures Valid() && Snapshot() == MatrixState.AddKnownColumn(old(Snapshot()), columnLabel)
    {
      ghost var s := Snapshot();
      var widened := AppendZeroToEachRow(knownColumnsMatrix);
      assert widened == MatrixState.WithZeroColumn(knownColumnsMatrix);
      knownColumnLabels := knownColumnLabels + [columnLabel];
      knownColumnIndexByLabel := knownColumnIndexByLabel[columnLabel := knownColumnsCount];
      knownColumnsCount := knownColumnsCount + 1;
      knownColumnsMatrix := widened;
      assert Snapshot() == MatrixState.AddKnownColumn(s, columnLabel);
    }

    /** Only ever called for a label with no novelty column. */
    method AddNoveltyColumn(columnLabel: int)
      requires Valid() && columnLabel !in noveltyColumnLabels
      modifies this
      ensures Valid() && Snapshot() == MatrixState.AddNoveltyColumn(old(Snapshot()), columnLabel)
    {
      ghost var s := Snapshot();
      var widened := AppendZeroToEachRow(noveltyColumnsMatrix);
      assert widened == MatrixState.WithZeroColumn(noveltyColumnsMatrix);
      noveltyColumnLabels := noveltyColumnLabels + [columnLabel];
      noveltyColumnIndexByLabel := noveltyColumnIndexByLabel[columnLabel := noveltyColumnsCount];
      noveltyColumnsCount := noveltyColumnsCount + 1;
      noveltyColumnsMatrix := widened;
      assert Snapshot() == MatrixState.AddNoveltyColumn(s, columnLabel);
    }

    /** Resolves a deferred sample of `realLabel`; fails, changing nothing, when that
        label has no row. */
    method UpdatedDelayed(realLabel: int, predictedLabel: int, isNovel: bool) returns (outcome: MatrixState.Outcome)
      requires Valid()
      modifies this
      ensures Valid() &&
        (Snapshot(), outcome) == MatrixState.UpdatedDelayed(old(Snapshot()), realLabel, predictedLabel, isNovel)
    {
      if realLabel !in rowLabels {
        return MatrixState.Fail(MatrixState.UnknownRowLabel);
      }
      var rowIndex := rowIndexByLabel[realLabel];
      var value := unknownColumn[rowIndex];
      unknownColumn := unknownColumn[rowIndex := value - 1];
      outcome := AddPrediction(realLabel, predictedLabel, isNovel);
    }

    method AddUnknown(realLabel: int)
      requires Valid()
      modifies this
      ensures Valid() && Snapshot() == MatrixState.AddUnknown(old(Snapshot()), realLabel)
    {
      if realLabel !in rowLabels {
        AddRow(realLabel);
      }
      var rowIndex := rowIndexByLabel[realLabel];
      var value := unknownColumn[rowIndex];
      unknownColumn := unknownColumn[rowIndex := value + 1];
    }

    /** Raises novelty cell (`rowIndex`, `columnIndex`) by one. */
    method IncrementNovelty(rowIndex: int, columnIndex: int)
      requires Valid() && 0 <= rowIndex < |rowLabels| && 0 <= columnIndex < |noveltyColumnLabels|
      modifies this
      ensures Valid() && Snapshot() == MatrixState.CountNovel(old(Snapshot()), rowIndex, columnIndex)
    {
      var count := noveltyColumnsMatrix[rowIndex][columnIndex];
      noveltyColumnsMatrix := noveltyColumnsMatrix[rowIndex := noveltyColumnsMatrix[rowIndex][columnIndex := count + 1]];
    }

    /** Raises known cell (`rowIndex`, `columnIndex`) by one. */
    method IncrementKnown(rowIndex: int, columnIndex: int)
      requires Valid() && 0 <= rowIndex < |rowLabels| && 0 <= columnIndex < |knownColumnLabels|
      modifies this
      ensures Valid() && Snapshot() == MatrixState.CountKnown(old(Snapshot()), rowIndex, columnIndex)
    {
      var count := knownColumnsMatrix[rowIndex][columnIndex];
      knownColumnsMatrix := knownColumnsMatrix[rowIndex := knownColumnsMatrix[rowIndex][columnIndex := count + 1]];
    }

    /** Counts one prediction; fails when a non-novel prediction names a label with no
        known column, keeping the row it may already have created. */
    method AddPrediction(realLabel: int, predictedLabel: int, isNovel: bool) returns (outcome: MatrixState.Outcome)
      requires Valid()
      modifies this
      ensures Valid() &&
        (Snapshot(), outcome) == MatrixState.AddPrediction(old(Snapshot()), realLabel, predictedLabel, isNovel)
    {
      ghost var s := Snapshot();
      if realLabel !in rowLabels {
        AddRow(realLabel);
      }
      ghost var withRow := Snapshot();
      assert withRow == MatrixState.WithRow(s, realLabel);
      var rowIndex := rowIndexByLabel[realLabel];
      if isNovel {
        if predictedLabel !in noveltyColumnLabels {
          AddNoveltyColumn(predictedLabel);
        }
        ghost var u := Snapshot();
        assert u == MatrixState.WithNoveltyColumn(withRow, predictedLabel);
        var columnIndex := noveltyColumnIndexByLabel[predictedLabel];
        IncrementNovelty(rowIndex, columnIndex);
      } else {
        if predictedLabel !in knownColumnIndexByLabel {
          return MatrixState.Fail(MatrixState.UnregisteredKnownLabel);
        }
        var columnIndex := knownColumnIndexByLabel[predictedLabel];
        IncrementKnown(rowIndex, columnIndex);
      }
      outcome := MatrixState.Ok;
    }

    /** The inner scan of the association: walks the rows in order, keeping the first
        row whose count in novelty column `j` exceeds every count before it (starting
        from 0), and answers that row's label, or -1 when no count is positive. */
    method ColumnOwner(j: int) returns (leader: int)
      requires Valid() && 0 <= j < |noveltyColumnLabels|
      ensures leader == Association.Owner(Snapshot(), j)
    {
      ghost var col := Association.Column(noveltyColumnsMatrix, j);
      var noveltyColumnLabel := noveltyColumnLabels[j];
      assert noveltyColumnIndexByLabel[noveltyColumnLabel] == j;
      var max := 0;
      leader := -1;
      var i := 0;
      while i < |rowLabels|
        invariant 0 <= i <= |rowLabels|
        invariant var p := Association.Leader(col, i);
          max == (if p == -1 then 0 else col[p]) &&
          leader == (if p == -1 then -1 else rowLabels[p])
      {
        var rowLabel := rowLabels[i];
        var row := rowIndexByLabel[rowLabel];
        assert row == i;
        var column := noveltyColumnIndexByLabel[noveltyColumnLabel];
        if noveltyColumnsMatrix[row][column] > max {
          max := noveltyColumnsMatrix[row][column];
          leader := rowLabel;
        }
        i := i + 1;
      }
    }

    /** `calculateNoveltyAssociationByRow`: credits every novelty column, in order, to
        the label its scan ends with, unless that label is -1. */
    method CalculateNoveltyAssociationByRow() returns (association: map<int, seq<int>>)
      requires Valid()
      ensures association == Association.NoveltyAssociationByRow(Snapshot())
    {
      ghost var s := Snapshot();
      association := map[];
      Association.AssociationStart(s);
      var j := 0;
      while j < |noveltyColumnLabels|
        invariant 0 <= j <= |noveltyColumnLabels| == |s.noveltyColumnLabels|
        invariant association == Association.AssociationUpTo(s, j)
        invariant Snapshot() == s
      {
        var noveltyColumnLabel := noveltyColumnLabels[j];
        var leader := ColumnOwner(j);
        assert leader == Association.Owner(s, j);
        association := CreditColumn(association, leader, noveltyColumnLabel);
        Association.AssociationStep(s, j);
        j := j + 1;
      }
      assert association == Association.AssociationUpTo(s, |s.noveltyColumnLabels|);
    }
  }
}
