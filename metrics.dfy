/** The queries that score a matrix: explained-sample counts, the per-label contingency
    counts TP, FP, FN and TN against an association of novelty columns to rows, the
    combined error rate (CER) and the unknown rate (UnkR). Ratios are exact `real`s;
    the source computes them in double precision. */
module Metrics {
  import opened Sums
  import opened MatrixState
  import opened Association

  // ---------------------------------------------------------------------------
  // Explained samples

  /** The explained samples of the row at position `i`: its known cells plus its
      novelty cells. */
  function ExplainedAt(s: State, i: int): (e: int)
    requires Wf(s) && 0 <= i < |s.rowLabels|
    ensures e >= 0
  {
    Sum(s.knownColumnsMatrix[i]) + Sum(s.noveltyColumnsMatrix[i])
  }

  /** `numberOfExplainedSamplesPerLabel`: the explained samples of a row label. */
  function Explained(s: State, l: int): (e: int)
    requires Wf(s) && l in s.rowLabels
    ensures e >= 0
  {
    ExplainedAt(s, s.rowIndexByLabel[l])
  }

  /** The explained samples of the first `n` rows. */
  function ExplainedUpTo(s: State, n: int): (e: int)
    requires Wf(s) && 0 <= n <= |s.rowLabels|
    ensures e >= 0
  {
    if n == 0 then 0 else ExplainedUpTo(s, n - 1) + ExplainedAt(s, n - 1)
  }

  /** `numberOfExplainedSamples`: the explained samples of all rows. */
  function NumberOfExplainedSamples(s: State): (e: int)
    requires Wf(s)
    ensures e >= 0
  {
    ExplainedUpTo(s, |s.rowLabels|)
  }

  // ---------------------------------------------------------------------------
  // Contingency counts

  /** Every novelty column the association lists for `l` is a novelty column of `s`
      (the source fails on a column it cannot look up). */
  ghost predicate ListsNovelties(s: State, association: map<int, seq<int>>, l: int)
  {
    l in association ==> forall c :: c in association[l] ==> c in s.noveltyColumnIndexByLabel
  }

  /** The novelty cells of row `i` in the columns named by `novelties`. */
  function NoveltyCellsIn(s: State, i: int, novelties: seq<int>): (r: int)
    requires Wf(s) && 0 <= i < |s.rowLabels|
    requires forall c :: c in novelties ==> c in s.noveltyColumnIndexByLabel
    ensures r >= 0
  {
    if novelties == [] then 0
    else
      var init, c := novelties[..|novelties| - 1], novelties[|novelties| - 1];
      assert c in novelties && forall d :: d in init ==> d in novelties;
      NoveltyCellsIn(s, i, init) + s.noveltyColumnsMatrix[i][s.noveltyColumnIndexByLabel[c]]
  }

  /** Column `j` of `m` summed over the first `n` rows whose label is not `l`. */
  function ColumnExcept(m: seq<seq<int>>, rows: seq<int>, l: int, j: int, n: int): (r: int)
    requires |m| == |rows| && 0 <= n <= |rows| && 0 <= j
    requires forall k :: 0 <= k < |m| ==> j < |m[k]|
    ensures NonNegative(m) ==> r >= 0
  {
    if n == 0 then 0
    else ColumnExcept(m, rows, l, j, n - 1) + (if rows[n - 1] != l then m[n - 1][j] else 0)
  }

  /** The columns named by `novelties`, each summed over the rows whose label is not `l`. */
  function NoveltyColumnsExcept(s: State, l: int, novelties: seq<int>): (r: int)
    requires Wf(s)
    requires forall c :: c in novelties ==> c in s.noveltyColumnIndexByLabel
    ensures r >= 0
  {
    if novelties == [] then 0
    else
      var init, c := novelties[..|novelties| - 1], novelties[|novelties| - 1];
      assert c in novelties && forall d :: d in init ==> d in novelties;
      NoveltyColumnsExcept(s, l, init) +
      ColumnExcept(s.noveltyColumnsMatrix, s.rowLabels, l, s.noveltyColumnIndexByLabel[c], |s.rowLabels|)
  }

  /** Row `i`'s known cells, walking the first `n` known-column labels other than `l`
      and reading each through the label's index (so a label registered twice reads
      its latest column twice). */
  function KnownRowExcept(s: State, i: int, l: int, n: int): (r: int)
    requires Wf(s) && 0 <= i < |s.rowLabels| && 0 <= n <= |s.knownColumnLabels|
    ensures r >= 0
  {
    if n == 0 then 0
    else
      var c := s.knownColumnLabels[n - 1];
      KnownRowExcept(s, i, l, n - 1) + (if c != l then s.knownColumnsMatrix[i][s.knownColumnIndexByLabel[c]] else 0)
  }

  /** Row `i`'s novelty cells in the first `n` novelty columns not named by `novelties`. */
  function NoveltyRowOutside(s: State, i: int, novelties: seq<int>, n: int): (r: int)
    requires Wf(s) && 0 <= i < |s.rowLabels| && 0 <= n <= |s.noveltyColumnLabels|
    ensures r >= 0
  {
    if n == 0 then 0
    else
      var c := s.noveltyColumnLabels[n - 1];
      NoveltyRowOutside(s, i, novelties, n - 1) +
      (if c !in novelties then s.noveltyColumnsMatrix[i][s.noveltyColumnIndexByLabel[c]] else 0)
  }

  /** `measureTP`: the diagonal known cell of `l` (when `l` is a known label) plus the
      cells of `l`'s row in the novelty columns associated with `l`. */
  function MeasureTP(s: State, l: int, association: map<int, seq<int>>): (r: int)
    requires Wf(s) && l in s.rowLabels && ListsNovelties(s, association, l)
    ensures r >= 0
  {
    var i := s.rowIndexByLabel[l];
    var known := if l in s.knownColumnLabels then s.knownColumnsMatrix[i][s.knownColumnIndexByLabel[l]] else 0;
    if l !in association then known else known + NoveltyCellsIn(s, i, association[l])
  }

  /** `measureFP`: the samples of other rows predicted as `l`: its known column (when
      `l` is a known label) and its associated novelty columns, outside `l`'s row. */
  function MeasureFP(s: State, l: int, association: map<int, seq<int>>): (r: int)
    requires Wf(s) && ListsNovelties(s, association, l)
    ensures r >= 0
  {
    var known :=
      if l in s.knownColumnLabels
      then ColumnExcept(s.knownColumnsMatrix, s.rowLabels, l, s.knownColumnIndexByLabel[l], |s.rowLabels|)
      else 0;
    if l !in association then known else known + NoveltyColumnsExcept(s, l, association[l])
  }

  /** `measureFN`: the samples of `l`'s row predicted as something else: the other known
      labels (only when `l` is itself a known label) and, only when `l` has associated
      novelty columns at all, the novelty columns not associated with it. */
  function MeasureFN(s: State, l: int, association: map<int, seq<int>>): (r: int)
    requires Wf(s) && l in s.rowLabels
    ensures r >= 0
  {
    var i := s.rowIndexByLabel[l];
    var known := if l in s.knownColumnLabels then KnownRowExcept(s, i, l, |s.knownColumnLabels|) else 0;
    if l !in association then known
    else known + NoveltyRowOutside(s, i, association[l], |s.noveltyColumnLabels|)
  }

  /** The association lists only novelty columns for every row other than `l`. */
  ghost predicate ListsNoveltiesExcept(s: State, association: map<int, seq<int>>, l: int)
  {
    forall r :: r in s.rowLabels && r != l ==> ListsNovelties(s, association, r)
  }

  /** TP summed over the first `n` rows whose label is not `l`. */
  function TPOfOthers(s: State, l: int, association: map<int, seq<int>>, n: int): (r: int)
    requires Wf(s) && 0 <= n <= |s.rowLabels| && ListsNoveltiesExcept(s, association, l)
    ensures r >= 0
  {
    if n == 0 then 0
    else
      var r := s.rowLabels[n - 1];
      TPOfOthers(s, l, association, n - 1) + (if r != l then MeasureTP(s, r, association) else 0)
  }

  /** `measureTN`: the true positives of every other row. */
  function MeasureTN(s: State, l: int, association: map<int, seq<int>>): (r: int)
    requires Wf(s) && ListsNoveltiesExcept(s, association, l)
    ensures r >= 0
  {
    TPOfOthers(s, l, association, |s.rowLabels|)
  }

  // ---------------------------------------------------------------------------
  // Combined error rate

  /** `Math.max(1, x)`. */
  function Max1(x: int): (r: int)
    ensures r >= 1 && r >= x && (r == 1 || r == x)
  {
    if x > 1 then x else 1
  }

  /** The association lists only novelty columns, for every row. */
  ghost predicate ListsNoveltiesForAll(s: State, association: map<int, seq<int>>)
  {
    forall r :: r in s.rowLabels ==> ListsNovelties(s, association, r)
  }

  /** The contribution to CER of a row with `explained` of the `total` explained
      samples: 0 when it explains none, and otherwise its share of the explained samples
      times the sum of its false-positive rate fp / max(1, fp + tn) and its
      false-negative rate fn / max(1, fn + tp). */
  function Contribution(explained: int, total: int, fp: int, fn: int, tn: int, tp: int): (r: real)
    requires 0 <= explained <= total
    ensures explained == 0 ==> r == 0.0
    ensures fp >= 0 && fn >= 0 && tn >= 0 && tp >= 0 ==> WithinShare(r, explained, total)
  {
    if explained == 0 then 0.0
    else
      RatesWithinShare(explained, total, fp, fn, tn, tp);
      var rate := explained as real / total as real;
      rate * (fp as real / Max1(fp + tn) as real) + rate * (fn as real / Max1(fn + tp) as real)
  }

  /** The two weighted rates of a row that explains samples stay within its share. */
  lemma RatesWithinShare(e: int, total: int, fp: int, fn: int, tn: int, tp: int)
    requires 0 < e <= total
    ensures var rate := e as real / total as real;
      fp >= 0 && fn >= 0 && tn >= 0 && tp >= 0 ==>
      WithinShare(rate * (fp as real / Max1(fp + tn) as real) + rate * (fn as real / Max1(fn + tp) as real), e, total)
  {
    if fp >= 0 && fn >= 0 && tn >= 0 && tp >= 0 {
      var fpRate := fp as real / Max1(fp + tn) as real;
      var fnRate := fn as real / Max1(fn + tp) as real;
      RateBound(fp, tn);
      RateBound(fn, tp);
      var rate := e as real / total as real;
      assert rate * total as real == e as real;
      assert 0.0 <= rate;
      assert (rate * fpRate + rate * fnRate) * total as real == e as real * (fpRate + fnRate);
    }
  }

  /** The contribution of row `l` to CER, from its explained samples and its
      contingency counts. */
  function RowCER(s: State, association: map<int, seq<int>>, total: int, l: int): (r: real)
    requires Wf(s) && l in s.rowLabels && ListsNoveltiesForAll(s, association)
    requires Explained(s, l) <= total
    ensures WithinShare(r, Explained(s, l), total)
  {
    var fp := MeasureFP(s, l, association);
    var fn := MeasureFN(s, l, association);
    var tn := MeasureTN(s, l, association);
    var tp := MeasureTP(s, l, association);
    Contribution(Explained(s, l), total, fp, fn, tn, tp)
  }

  /** Every row's explained count is at most the count of the first `n` rows it is among. */
  lemma {:induction false} ExplainedAtMostUpTo(s: State, n: int, k: int)
    requires Wf(s) && 0 <= k < n <= |s.rowLabels|
    ensures ExplainedAt(s, k) <= ExplainedUpTo(s, n)
  {
    if k < n - 1 {
      ExplainedAtMostUpTo(s, n - 1, k);
    }
  }

  /** The contributions of the first `n` rows, which stay within those rows' share of
      all explained samples. */
  function CERUpTo(s: State, association: map<int, seq<int>>, n: int): (r: real)
    requires Wf(s) && 0 <= n <= |s.rowLabels| && ListsNoveltiesForAll(s, association)
    ensures WithinShare(r, ExplainedUpTo(s, n), NumberOfExplainedSamples(s))
  {
    if n == 0 then 0.0
    else
      ExplainedAtMostUpTo(s, |s.rowLabels|, n - 1);
      var total := NumberOfExplainedSamples(s);
      var l := s.rowLabels[n - 1];
      assert s.rowIndexByLabel[l] == n - 1;
      var previous := CERUpTo(s, association, n - 1);
      var row := RowCER(s, association, total, l);
      SumOfBounded(previous, row, ExplainedUpTo(s, n - 1), Explained(s, l), total);
      previous + row
  }

  /** `measureCER`: half the sum of the row contributions, with the association the
      matrix computes. */
  function MeasureCER(s: State): (r: real)
    requires Wf(s)
    ensures 0.0 <= r <= 1.0
  {
    var a := NoveltyAssociationByRow(s);
    HalfOfWholeShare(CERUpTo(s, a, |s.rowLabels|), NumberOfExplainedSamples(s));
    CERUpTo(s, a, |s.rowLabels|) / 2.0
  }

  // ---------------------------------------------------------------------------
  // Unknown rate

  /** A double-precision result: a finite value, or an infinity or NaN. */
  datatype Measure = Finite(value: real) | NotFinite

  /** The unknown rate of one row with `explained` explained and `unexplained` deferred
      samples: 0 when both are 0, 1 when only the deferred count is non-zero, and
      otherwise unexplained / (explained + unexplained), which is infinite when a
      negative deferred count cancels the explained count. */
  function RowUnkR(explained: int, unexplained: int): (r: Measure)
    ensures r.NotFinite? <==> explained != 0 && explained + unexplained == 0
    ensures explained >= 0 && unexplained >= 0 ==> r.Finite? && 0.0 <= r.value <= 1.0
  {
    if explained == 0 then (if unexplained == 0 then Finite(0.0) else Finite(1.0))
    else if explained + unexplained == 0 then NotFinite
    else
      var d := (explained + unexplained) as real;
      assert (unexplained as real / d) * d == unexplained as real;
      Finite(unexplained as real / d)
  }

  /** Double-precision addition: not finite once either term is not. */
  function Plus(a: Measure, b: Measure): (r: Measure)
    ensures r.Finite? <==> a.Finite? && b.Finite?
    ensures r.Finite? ==> r.value == a.value + b.value
  {
    if a.Finite? && b.Finite? then Finite(a.value + b.value) else NotFinite
  }

  /** The row unknown rates of the first `n` rows, summed. */
  function UnkRUpTo(s: State, n: int): (r: Measure)
    requires Wf(s) && 0 <= n <= |s.rowLabels|
    ensures r.NotFinite? <==>
      exists k :: 0 <= k < n && ExplainedAt(s, k) != 0 && ExplainedAt(s, k) + s.unknownColumn[k] == 0
  {
    if n == 0 then Finite(0.0)
    else Plus(UnkRUpTo(s, n - 1), RowUnkR(ExplainedAt(s, n - 1), s.unknownColumn[n - 1]))
  }

  /** `measureUnkR`: the mean of the row unknown rates. It is not a finite number
      exactly when there is no row (0 / 0) or some row's negative deferred count cancels
      its explained count. */
  function MeasureUnkR(s: State): (r: Measure)
    requires Wf(s)
    ensures r.NotFinite? <==>
      |s.rowLabels| == 0 ||
      exists k :: 0 <= k < |s.rowLabels| && ExplainedAt(s, k) != 0 && ExplainedAt(s, k) + s.unknownColumn[k] == 0
  {
    var n := |s.rowLabels|;
    var total := UnkRUpTo(s, n);
    if n == 0 || total.NotFinite? then NotFinite else Finite(total.value / n as real)
  }

  // ---------------------------------------------------------------------------
  // Properties

  /** TP summed over the first `n` rows. */
  function TPUpTo(s: State, association: map<int, seq<int>>, n: int): int
    requires Wf(s) && 0 <= n <= |s.rowLabels| && ListsNoveltiesForAll(s, association)
  {
    if n == 0 then 0 else TPUpTo(s, association, n - 1) + MeasureTP(s, s.rowLabels[n - 1], association)
  }

  lemma {:induction false} TPOfOthersSplit(s: State, association: map<int, seq<int>>, l: int, n: int)
    requires Wf(s) && 0 <= n <= |s.rowLabels| && ListsNoveltiesForAll(s, association)
    ensures TPOfOthers(s, l, association, n) + (if l in s.rowLabels[..n] then MeasureTP(s, l, association) else 0)
            == TPUpTo(s, association, n)
  {
    if n > 0 {
      TPOfOthersSplit(s, association, l, n - 1);
      assert s.rowLabels[..n] == s.rowLabels[..n - 1] + [s.rowLabels[n - 1]];
      if s.rowLabels[n - 1] == l {
        forall k | 0 <= k < n - 1
          ensures s.rowLabels[k] != l
        {
          assert s.rowIndexByLabel[s.rowLabels[k]] == k;
        }
      }
    }
  }

  /** TN(l) + TP(l) is the same for every row label: the true positives of all rows;
      a label without a row has all of them as TN. */
  lemma TNComplementsTP(s: State, association: map<int, seq<int>>, l: int)
    requires Wf(s) && ListsNoveltiesForAll(s, association)
    ensures l in s.rowLabels ==>
      MeasureTN(s, l, association) + MeasureTP(s, l, association) == TPUpTo(s, association, |s.rowLabels|)
    ensures l !in s.rowLabels ==>
      MeasureTN(s, l, association) == TPUpTo(s, association, |s.rowLabels|)
  {
    TPOfOthersSplit(s, association, l, |s.rowLabels|);
    assert s.rowLabels[..|s.rowLabels|] == s.rowLabels;
  }

  lemma SumPrefixStep(xs: seq<int>, n: int)
    requires 0 < n <= |xs|
    ensures Sum(xs[..n]) == Sum(xs[..n - 1]) + xs[n - 1]
  {
    assert xs[..n][..n - 1] == xs[..n - 1];
  }

  /** With known labels registered once, the known cells of row `i` are its diagonal
      cell (for the known label `l`) plus the cells `KnownRowExcept` reads. */
  lemma {:induction false} KnownRowSplit(s: State, i: int, l: int, n: int)
    requires Wf(s) && IndexesDistinct(s.knownColumnLabels, s.knownColumnIndexByLabel)
    requires 0 <= i < |s.rowLabels| && 0 <= n <= |s.knownColumnLabels| && l in s.knownColumnIndexByLabel
    ensures KnownRowExcept(s, i, l, n) +
            (if s.knownColumnIndexByLabel[l] < n then s.knownColumnsMatrix[i][s.knownColumnIndexByLabel[l]] else 0)
            == Sum(s.knownColumnsMatrix[i][..n])
  {
    if n > 0 {
      KnownRowSplit(s, i, l, n - 1);
      SumPrefixStep(s.knownColumnsMatrix[i], n);
      assert s.knownColumnIndexByLabel[s.knownColumnLabels[n - 1]] == n - 1;
    }
  }

  lemma NoveltyCellsInAppend(s: State, i: int, novelties: seq<int>, c: int)
    requires Wf(s) && 0 <= i < |s.rowLabels|
    requires forall d :: d in novelties + [c] ==> d in s.noveltyColumnIndexByLabel
    ensures NoveltyCellsIn(s, i, novelties + [c]) ==
            NoveltyCellsIn(s, i, novelties) + s.noveltyColumnsMatrix[i][s.noveltyColumnIndexByLabel[c]]
  {
    assert (novelties + [c])[..|novelties|] == novelties;
  }

  /** The novelty cells of row `i` split into the columns owned by `l` and the rest. */
  lemma {:induction false} NoveltyRowSplit(s: State, i: int, l: int, n: int)
    requires Wf(s) && 0 <= i < |s.rowLabels| && 0 <= n <= |s.noveltyColumnLabels|
    ensures NoveltyCellsIn(s, i, OwnedBy(s, l, n)) +
            NoveltyRowOutside(s, i, OwnedBy(s, l, |s.noveltyColumnLabels|), n)
            == Sum(s.noveltyColumnsMatrix[i][..n])
  {
    if n > 0 {
      NoveltyRowSplit(s, i, l, n - 1);
      SumPrefixStep(s.noveltyColumnsMatrix[i], n);
      var c := s.noveltyColumnLabels[n - 1];
      assert s.noveltyColumnIndexByLabel[c] == n - 1;
      OwnedByMembership(s, l, |s.noveltyColumnLabels|, c);
      if Owner(s, n - 1) == l {
        NoveltyCellsInAppend(s, i, OwnedBy(s, l, n - 1), c);
      } else {
        forall j | 0 <= j < |s.noveltyColumnLabels| && s.noveltyColumnLabels[j] == c
          ensures Owner(s, j) != l
        {
          assert j == n - 1;
        }
      }
    }
  }

  /** With the association the matrix computes and known labels registered once, the
      TP and FN of a known label together count every known cell of its row, and its
      novelty cells too when it was credited some novelty column; when it was credited
      none, its novel predictions count neither as TP nor as FN. */
  lemma TPPlusFN(s: State, l: int)
    requires Wf(s) && IndexesDistinct(s.knownColumnLabels, s.knownColumnIndexByLabel)
    requires l in s.rowLabels && l in s.knownColumnLabels
    ensures var a := NoveltyAssociationByRow(s);
      var i := s.rowIndexByLabel[l];
      MeasureTP(s, l, a) + MeasureFN(s, l, a) ==
        Sum(s.knownColumnsMatrix[i]) + (if l in a then Sum(s.noveltyColumnsMatrix[i]) else 0)
  {
    var i := s.rowIndexByLabel[l];
    KnownRowSplit(s, i, l, |s.knownColumnLabels|);
    assert s.knownColumnsMatrix[i][..|s.knownColumnLabels|] == s.knownColumnsMatrix[i];
    NoveltyRowSplit(s, i, l, |s.noveltyColumnLabels|);
    assert s.noveltyColumnsMatrix[i][..|s.noveltyColumnLabels|] == s.noveltyColumnsMatrix[i];
  }

  /** A rate fp / max(1, fp + tn) (or fn / max(1, fn + tp)) of non-negative counts lies
      in [0, 1]. */
  lemma RateBound(x: int, y: int)
    requires x >= 0 && y >= 0
    ensures 0.0 <= x as real / Max1(x + y) as real <= 1.0
  {
    var d := Max1(x + y) as real;
    assert x as real <= d;
    assert (x as real / d) * d == x as real;
  }

  /** `amount` is non-negative, vanishes when `explained` does, and is at most twice the
      share `explained / total`. */
  ghost predicate WithinShare(amount: real, explained: int, total: int)
  {
    0.0 <= amount && amount * total as real <= 2.0 * explained as real &&
    (explained == 0 ==> amount == 0.0)
  }

  /** Amounts within their shares add up to an amount within the summed share. */
  lemma SumOfBounded(a: real, b: real, ea: int, eb: int, total: int)
    requires WithinShare(a, ea, total) && WithinShare(b, eb, total)
    requires ea >= 0 && eb >= 0
    ensures WithinShare(a + b, ea + eb, total)
  {
    assert (a + b) * total as real == a * total as real + b * total as real;
  }

  /** Half of an amount within the whole share lies in [0, 1]. */
  lemma HalfOfWholeShare(c: real, total: int)
    requires total >= 0 && WithinShare(c, total, total)
    ensures 0.0 <= c / 2.0 <= 1.0
  {
    if total > 0 {
      assert c * total as real <= 2.0 * total as real;
      assert c <= 2.0;
    }
  }

  /** Creating the row of a sample leaves every existing row's explained count as it
      was and gives the new row none. */
  lemma ExplainedAtWithRow(s: State, r: int, i: int)
    requires Wf(s) && 0 <= i < |WithRow(s, r).rowLabels|
    ensures ExplainedAt(WithRow(s, r), i) == if i < |s.rowLabels| then ExplainedAt(s, i) else 0
  {
    var w := WithRow(s, r);
    if i < |s.rowLabels| {
      assert w.knownColumnsMatrix[i] == s.knownColumnsMatrix[i];
      assert w.noveltyColumnsMatrix[i] == s.noveltyColumnsMatrix[i];
    } else {
      SumOfZeros(w.knownColumnsMatrix[i]);
      SumOfZeros(w.noveltyColumnsMatrix[i]);
    }
  }

  /** Creating a novelty column changes no explained count: the new column is empty. */
  lemma ExplainedAtWithNoveltyColumn(s: State, c: int, i: int)
    requires Wf(s) && 0 <= i < |s.rowLabels|
    ensures ExplainedAt(WithNoveltyColumn(s, c), i) == ExplainedAt(s, i)
  {
    if c !in s.noveltyColumnLabels {
      var u := AddNoveltyColumn(s, c);
      assert u.noveltyColumnsMatrix[i] == s.noveltyColumnsMatrix[i] + [0];
      SumAppend(s.noveltyColumnsMatrix[i], 0);
    }
  }

  /** Counting a novel prediction raises only its row's explained count, by one. */
  lemma ExplainedAtCountNovel(s: State, row: int, column: int, i: int)
    requires Wf(s) && 0 <= row < |s.rowLabels| && 0 <= column < |s.noveltyColumnLabels|
    requires 0 <= i < |s.rowLabels|
    ensures ExplainedAt(CountNovel(s, row, column), i) == ExplainedAt(s, i) + if i == row then 1 else 0
  {
    if i == row {
      SumIncrementAt(s.noveltyColumnsMatrix[i], column);
    }
  }

  /** Counting a known prediction raises only its row's explained count, by one. */
  lemma ExplainedAtCountKnown(s: State, row: int, column: int, i: int)
    requires Wf(s) && 0 <= row < |s.rowLabels| && 0 <= column < |s.knownColumnLabels|
    requires 0 <= i < |s.rowLabels|
    ensures ExplainedAt(CountKnown(s, row, column), i) == ExplainedAt(s, i) + if i == row then 1 else 0
  {
    if i == row {
      SumIncrementAt(s.knownColumnsMatrix[i], column);
    }
  }

  /** Recording a prediction leaves the explained count of every existing row as it
      was, gives a new row 0, and then adds one to the predicted sample's row on
      success. */
  lemma ExplainedAtAfterPrediction(s: State, r: int, p: int, isNovel: bool, i: int)
    requires Wf(s) && 0 <= i < |AddPrediction(s, r, p, isNovel).0.rowLabels|
    ensures var (t, outcome) := AddPrediction(s, r, p, isNovel);
      ExplainedAt(t, i) == (if i < |s.rowLabels| then ExplainedAt(s, i) else 0) +
        (if outcome.Ok? && i == t.rowIndexByLabel[r] then 1 else 0)
  {
    var w := WithRow(s, r);
    var row := w.rowIndexByLabel[r];
    ExplainedAtWithRow(s, r, i);
    if isNovel {
      var u := WithNoveltyColumn(w, p);
      ExplainedAtWithNoveltyColumn(w, p, i);
      ExplainedAtCountNovel(u, row, u.noveltyColumnIndexByLabel[p], i);
    } else if p in w.knownColumnIndexByLabel {
      ExplainedAtCountKnown(w, row, w.knownColumnIndexByLabel[p], i);
    }
  }

  /** When row `row`'s explained count rises by `bump` and no other of the first `n`
      rows changes, the count of the first `n` rows rises by `bump` if `row` is among them. */
  lemma {:induction false} ExplainedUpToBump(s: State, t: State, n: int, row: int, bump: int)
    requires Wf(s) && Wf(t) && 0 <= n <= |s.rowLabels| && n <= |t.rowLabels|
    requires forall i :: 0 <= i < n ==> ExplainedAt(t, i) == ExplainedAt(s, i) + if i == row then bump else 0
    ensures ExplainedUpTo(t, n) == ExplainedUpTo(s, n) + if 0 <= row < n then bump else 0
  {
    if n > 0 {
      ExplainedUpToBump(s, t, n - 1, row, bump);
    }
  }

  /** A step that may append a row for `r`, and raises `r`'s explained count by `bump`
      and no other, raises the total by `bump` too. */
  lemma ExplainedAfterBump(s: State, t: State, r: int, bump: int)
    requires Wf(s) && Wf(t)
    requires t.rowLabels == if r in s.rowLabels then s.rowLabels else s.rowLabels + [r]
    requires r in t.rowIndexByLabel
    requires forall i :: 0 <= i < |t.rowLabels| ==>
      ExplainedAt(t, i) == (if i < |s.rowLabels| then ExplainedAt(s, i) else 0) +
        if i == t.rowIndexByLabel[r] then bump else 0
    ensures NumberOfExplainedSamples(t) == NumberOfExplainedSamples(s) + bump
    ensures Explained(t, r) == (if r in s.rowLabels then Explained(s, r) else 0) + bump
    ensures forall l :: l in s.rowLabels && l != r ==> Explained(t, l) == Explained(s, l)
  {
    var n := |s.rowLabels|;
    var row := t.rowIndexByLabel[r];
    ExplainedUpToBump(s, t, n, row, bump);
    if r in s.rowLabels {
      assert s.rowIndexByLabel[r] == row;
    } else {
      assert row == n;
    }
    forall l | l in s.rowLabels && l != r
      ensures Explained(t, l) == Explained(s, l)
    {
      var k := s.rowIndexByLabel[l];
      assert t.rowLabels[k] == l;
    }
  }

  /** `addPrediction` raises the explained count of the sample's true label, and the
      number of explained samples, by one exactly when it succeeds; a new row starts
      from none, and no other row's count changes. */
  lemma AddPredictionExplained(s: State, r: int, p: int, isNovel: bool)
    requires Wf(s)
    ensures var (t, outcome) := AddPrediction(s, r, p, isNovel);
      var one := if outcome.Ok? then 1 else 0;
      NumberOfExplainedSamples(t) == NumberOfExplainedSamples(s) + one &&
      Explained(t, r) == (if r in s.rowLabels then Explained(s, r) else 0) + one &&
      forall l :: l in s.rowLabels && l != r ==> Explained(t, l) == Explained(s, l)
  {
    var (t, outcome) := AddPrediction(s, r, p, isNovel);
    forall i | 0 <= i < |t.rowLabels|
      ensures ExplainedAt(t, i) == (if i < |s.rowLabels| then ExplainedAt(s, i) else 0) +
        if i == t.rowIndexByLabel[r] then (if outcome.Ok? then 1 else 0) else 0
    {
      ExplainedAtAfterPrediction(s, r, p, isNovel, i);
    }
    ExplainedAfterBump(s, t, r, if outcome.Ok? then 1 else 0);
  }

  /** With no negative deferred count, the first `n` row rates sum to a number in [0, n]. */
  lemma {:induction false} UnkRUpToBound(s: State, n: int)
    requires Wf(s) && 0 <= n <= |s.rowLabels|
    requires forall k :: 0 <= k < |s.unknownColumn| ==> s.unknownColumn[k] >= 0
    ensures UnkRUpTo(s, n).Finite? && 0.0 <= UnkRUpTo(s, n).value <= n as real
  {
    if n > 0 {
      UnkRUpToBound(s, n - 1);
    }
  }

  /** With at least one row and no negative deferred count, UnkR is a number in [0, 1]. */
  lemma UnkRBounds(s: State)
    requires Wf(s) && |s.rowLabels| > 0
    requires forall k :: 0 <= k < |s.unknownColumn| ==> s.unknownColumn[k] >= 0
    ensures MeasureUnkR(s).Finite? && 0.0 <= MeasureUnkR(s).value <= 1.0
  {
    var n := |s.rowLabels|;
    UnkRUpToBound(s, n);
    var v := UnkRUpTo(s, n).value;
    assert v / n as real <= 1.0 by {
      assert (v / n as real) * n as real == v;
    }
  }
}
