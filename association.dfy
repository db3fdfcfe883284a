/** The novelty association: each novelty column is credited to the true label whose
    row holds the strictly greatest positive count in it, the first such row on a tie. */
module Association {
  import opened MatrixState

  /** Column `j` of `m`, top to bottom. */
  function Column(m: seq<seq<int>>, j: int): (c: seq<int>)
    requires 0 <= j && forall i :: 0 <= i < |m| ==> j < |m[i]|
    ensures |c| == |m| && forall i :: 0 <= i < |m| ==> c[i] == m[i][j]
  {
    seq(|m|, i requires 0 <= i < |m| => m[i][j])
  }

  /** The position the association scan settles on after the first `n` entries of
      `col`, starting from a maximum of 0 and no position (-1), and moving only to an
      entry strictly greater than the current maximum. */
  function Leader(col: seq<int>, n: int): (r: int)
    requires 0 <= n <= |col|
    ensures -1 <= r < n
  {
    if n == 0 then -1
    else
      var p := Leader(col, n - 1);
      var max := if p == -1 then 0 else col[p];
      if col[n - 1] > max then n - 1 else p
  }

  /** The scan settles on the first position of the greatest entry when that entry is
      positive, and on -1 when no entry is. */
  lemma {:induction false} LeaderIsFirstMaximum(col: seq<int>, n: int)
    requires 0 <= n <= |col|
    ensures var r := Leader(col, n);
      (r == -1 <==> forall i :: 0 <= i < n ==> col[i] <= 0) &&
      (r != -1 ==>
         col[r] > 0 &&
         (forall i :: 0 <= i < r ==> col[i] < col[r]) &&
         (forall i :: 0 <= i < n ==> col[i] <= col[r]))
  {
    if n > 0 {
      LeaderIsFirstMaximum(col, n - 1);
    }
  }

  /** Row `i` holds the first strictly greatest, positive count of novelty column `j`. */
  ghost predicate FirstStrictMaximum(s: State, i: int, j: int)
    requires NoveltyShaped(s) && 0 <= i < |s.rowLabels| && 0 <= j < |s.noveltyColumnLabels|
  {
    var m := s.noveltyColumnsMatrix;
    m[i][j] > 0 &&
    (forall k :: 0 <= k < i ==> m[k][j] < m[i][j]) &&
    (forall k :: 0 <= k < |m| ==> m[k][j] <= m[i][j])
  }

  /** The label the scan of novelty column `j` ends with: the label of the leading row,
      or -1 when no row holds a positive count. A leading row whose own label is -1 is
      indistinguishable from no row. */
  function Owner(s: State, j: int): (r: int)
    requires NoveltyShaped(s) && 0 <= j < |s.noveltyColumnLabels|
    ensures r == -1 || r in s.rowLabels
  {
    var p := Leader(Column(s.noveltyColumnsMatrix, j), |s.rowLabels|);
    if p == -1 then -1 else s.rowLabels[p]
  }

  /** `o` lists novelty columns among the first `n`, in the order they were discovered. */
  ghost predicate InDiscoveryOrder(s: State, o: seq<int>, n: int)
  {
    (forall a :: 0 <= a < |o| ==> o[a] in s.noveltyColumnIndexByLabel && s.noveltyColumnIndexByLabel[o[a]] < n) &&
    (forall a, b :: 0 <= a < b < |o| ==> s.noveltyColumnIndexByLabel[o[a]] < s.noveltyColumnIndexByLabel[o[b]])
  }

  /** The labels of the first `n` novelty columns owned by `rowLabel`, in discovery order. */
  function OwnedBy(s: State, rowLabel: int, n: int): (o: seq<int>)
    requires NoveltyShaped(s) && 0 <= n <= |s.noveltyColumnLabels|
    ensures forall c :: c in o ==> c in s.noveltyColumnIndexByLabel
    ensures InDiscoveryOrder(s, o, n)
  {
    if n == 0 then []
    else
      var init, c := OwnedBy(s, rowLabel, n - 1), s.noveltyColumnLabels[n - 1];
      assert s.noveltyColumnIndexByLabel[c] == n - 1;
      if Owner(s, n - 1) == rowLabel then init + [c] else init
  }

  /** The association built from the first `n` novelty columns: every key is a row
      label other than -1, with a non-empty list of novelty columns. */
  function AssociationUpTo(s: State, n: int): (a: map<int, seq<int>>)
    requires NoveltyShaped(s) && 0 <= n <= |s.noveltyColumnLabels|
    ensures forall l :: l in a ==>
      l in s.rowLabels && l != -1 && a[l] != [] && a[l] == OwnedBy(s, l, n) &&
      forall c :: c in a[l] ==> c in s.noveltyColumnIndexByLabel
  {
    map l | l in s.rowLabels && l != -1 && OwnedBy(s, l, n) != [] :: OwnedBy(s, l, n)
  }

  /** `calculateNoveltyAssociationByRow`: row label to the novelty columns credited to
      it, each list in the order the columns were discovered. */
  function NoveltyAssociationByRow(s: State): (a: map<int, seq<int>>)
    requires NoveltyShaped(s)
    ensures forall l :: l in a ==>
      l in s.rowLabels && l != -1 && a[l] != [] &&
      (forall c :: c in a[l] ==> c in s.noveltyColumnIndexByLabel) &&
      InDiscoveryOrder(s, a[l], |s.noveltyColumnLabels|)
  {
    AssociationUpTo(s, |s.noveltyColumnLabels|)
  }

  /** `association` with novelty label `c` appended to the list of `owner`, unless the
      owner is the "no row" label -1. */
  function Credit(association: map<int, seq<int>>, owner: int, c: int): (r: map<int, seq<int>>)
    ensures owner == -1 ==> r == association
    ensures owner != -1 ==>
      r.Keys == association.Keys + {owner} &&
      r[owner] == (if owner in association then association[owner] else []) + [c] &&
      forall l :: l in association && l != owner ==> r[l] == association[l]
  {
    if owner == -1 then association
    else association[owner := (if owner in association then association[owner] else []) + [c]]
  }

  /** Processing one more novelty column credits it to its owner. */
  lemma AssociationStep(s: State, n: int)
    requires NoveltyShaped(s) && 0 <= n < |s.noveltyColumnLabels|
    ensures AssociationUpTo(s, n + 1) ==
      Credit(AssociationUpTo(s, n), Owner(s, n), s.noveltyColumnLabels[n])
  {
    var a, b := AssociationUpTo(s, n), AssociationUpTo(s, n + 1);
    var c := Credit(a, Owner(s, n), s.noveltyColumnLabels[n]);
    forall l | l in b
      ensures l in c && b[l] == c[l]
    {
      OwnedByStep(s, l, n);
    }
    forall l | l in c
      ensures l in b
    {
      OwnedByStep(s, l, n);
    }
  }

  /** One more column joins the list of its owner only. */
  lemma OwnedByStep(s: State, l: int, n: int)
    requires NoveltyShaped(s) && 0 <= n < |s.noveltyColumnLabels|
    ensures OwnedBy(s, l, n + 1) ==
      if Owner(s, n) == l then OwnedBy(s, l, n) + [s.noveltyColumnLabels[n]] else OwnedBy(s, l, n)
  {
  }

  /** Before any column is processed the association is empty. */
  lemma AssociationStart(s: State)
    requires NoveltyShaped(s)
    ensures AssociationUpTo(s, 0) == map[]
  {
  }

  /** A label appears in `OwnedBy(s, l, n)` exactly when it names one of the first `n`
      novelty columns whose owner is `l`. */
  lemma {:induction false} OwnedByMembership(s: State, l: int, n: int, c: int)
    requires NoveltyShaped(s) && 0 <= n <= |s.noveltyColumnLabels|
    ensures c in OwnedBy(s, l, n) <==>
      exists j :: 0 <= j < n && s.noveltyColumnLabels[j] == c && Owner(s, j) == l
  {
    if n > 0 {
      OwnedByMembership(s, l, n - 1, c);
    }
  }

  /** The association credits novelty column `c` to row label `l` exactly when `c` is a
      novelty column, `l` is not -1, and the row of `l` holds the first strictly greatest
      positive count of that column; so the sentinel label -1 is never a key, a column
      of zeros is credited to no row, and no column is credited to two rows. */
  lemma AssociationIsFirstStrictMaximum(s: State, l: int, c: int)
    requires NoveltyShaped(s)
    ensures var a := NoveltyAssociationByRow(s);
      (l in a && c in a[l]) <==>
        l != -1 && c in s.noveltyColumnIndexByLabel &&
        exists i :: 0 <= i < |s.rowLabels| && s.rowLabels[i] == l &&
          FirstStrictMaximum(s, i, s.noveltyColumnIndexByLabel[c])
  {
    var a := NoveltyAssociationByRow(s);
    if l in a && c in a[l] {
      CreditedIsFirstStrictMaximum(s, l, c);
    }
    if l != -1 && c in s.noveltyColumnIndexByLabel &&
       exists i :: 0 <= i < |s.rowLabels| && s.rowLabels[i] == l &&
         FirstStrictMaximum(s, i, s.noveltyColumnIndexByLabel[c])
    {
      var i :| 0 <= i < |s.rowLabels| && s.rowLabels[i] == l &&
        FirstStrictMaximum(s, i, s.noveltyColumnIndexByLabel[c]);
      FirstStrictMaximumIsCredited(s, l, c, i);
    }
  }

  /** A credited column's greatest count sits first in the row it is credited to. */
  lemma CreditedIsFirstStrictMaximum(s: State, l: int, c: int)
    requires NoveltyShaped(s)
    requires var a := NoveltyAssociationByRow(s); l in a && c in a[l]
    ensures l != -1 && c in s.noveltyColumnIndexByLabel
    ensures exists i ::
      0 <= i < |s.rowLabels| && s.rowLabels[i] == l && FirstStrictMaximum(s, i, s.noveltyColumnIndexByLabel[c])
  {
    var n := |s.noveltyColumnLabels|;
    OwnedByMembership(s, l, n, c);
    var j :| 0 <= j < n && s.noveltyColumnLabels[j] == c && Owner(s, j) == l;
    assert s.noveltyColumnIndexByLabel[c] == j;
    var col := Column(s.noveltyColumnsMatrix, j);
    var p := Leader(col, |s.rowLabels|);
    LeaderIsFirstMaximum(col, |s.rowLabels|);
    assert FirstStrictMaximum(s, p, j);
  }

  /** A column whose first strictly greatest positive count is in row `i` is credited
      to that row's label, unless the label is -1. */
  lemma FirstStrictMaximumIsCredited(s: State, l: int, c: int, i: int)
    requires NoveltyShaped(s) && l != -1 && c in s.noveltyColumnIndexByLabel
    requires 0 <= i < |s.rowLabels| && s.rowLabels[i] == l
    requires FirstStrictMaximum(s, i, s.noveltyColumnIndexByLabel[c])
    ensures var a := NoveltyAssociationByRow(s); l in a && c in a[l]
  {
    var j := s.noveltyColumnIndexByLabel[c];
    var col := Column(s.noveltyColumnsMatrix, j);
    LeaderIsFirstMaximum(col, |s.rowLabels|);
    assert Leader(col, |s.rowLabels|) == i;
    assert Owner(s, j) == l;
    OwnedByMembership(s, l, |s.noveltyColumnLabels|, c);
  }

  /** No novelty column is credited to two rows. */
  lemma AssociationCreditsOnce(s: State, l1: int, l2: int, c: int)
    requires NoveltyShaped(s)
    ensures var a := NoveltyAssociationByRow(s);
      l1 in a && l2 in a && c in a[l1] && c in a[l2] ==> l1 == l2
  {
    var n := |s.noveltyColumnLabels|;
    OwnedByMembership(s, l1, n, c);
    OwnedByMembership(s, l2, n, c);
  }
}
