/** Worked cases: the association's tie-break and zero rule on concrete columns, and
    CER and UnkR on small concrete matrices. */
module Examples {
  import opened MatrixState
  import opened Association
  import opened Metrics

  /** The scan picks the strictly greatest count, keeps the earlier row on a tie, and
      picks no row for a column of zeros. */
  lemma LeaderExamples()
    ensures Leader([3, 0, 5], 3) == 2
    ensures Leader([4, 4, 0], 3) == 0
    ensures Leader([0, 0], 2) == -1
  {
  }

  /** Known labels 1 and 2, each with its row: eight samples of label 1 predicted as 1
      and two as 2, none of label 2. */
  function EightTwo(): (s: State)
    ensures Wf(s)
  {
    State([1, 2], [1, 2], [], 2, 0, map[1 := 0, 2 := 1], map[], map[1 := 0, 2 := 1], [[8, 2], [0, 0]], [[], []], [0, 0])
  }

  /** For label 1, TP = 8, FN = 2 and FP = TN = 0; label 2's row explains nothing and
      contributes 0; so CER = (0 + 2 / 10) / 2. */
  lemma CERExample()
    ensures MeasureCER(EightTwo()) == 0.1
  {
    var s := EightTwo();
    var a := NoveltyAssociationByRow(s);
    assert a == map[];
    assert MeasureTP(s, 1, a) == 8;
    assert KnownRowExcept(s, 0, 1, 1) == 0;
    assert MeasureFN(s, 1, a) == 2;
    assert MeasureFP(s, 1, a) == 0;
    assert MeasureTN(s, 1, a) == 0;
    assert Explained(s, 1) == 10 && NumberOfExplainedSamples(s) == 10;
  }

  /** Label 1 with nine explained and one deferred sample, label 2 with none of either. */
  function NineOneAndEmpty(): (s: State)
    ensures Wf(s)
  {
    State([1, 2], [1], [], 1, 0, map[1 := 0], map[], map[1 := 0, 2 := 1], [[9], [0]], [[], []], [1, 0])
  }

  /** The row values are 1 / 10 and 0, and UnkR is their mean. */
  lemma UnkRExample()
    ensures MeasureUnkR(NineOneAndEmpty()) == Finite(0.05)
  {
    var s := NineOneAndEmpty();
    assert ExplainedAt(s, 0) == 9 && ExplainedAt(s, 1) == 0;
  }
}
