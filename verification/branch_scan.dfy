/**
 Branch discovery for the tree pseudo-time: the scan of the predecessor
 column of the start node that collects the first two distinct predecessors
 (the branch list `junc`) and picks which of them is the "left" branch.

 A predecessor column is the sequence `P[:, start]`: row `r` holds the node
 preceding `start` on the shortest path from `r`, or `NoPred`.
 */
module BranchScan {
  import opened Matrices

  /** The shortest-path routine's marker for "no predecessor". */
  const NoPred: int := -9999

  /**
   Outcome of the scan: the branch list in discovery order and the left
   branch, which stays `NoPred` when fewer than two branches were found.
   */
  datatype Scan = Scan(junc: seq<int>, left: int)

  predicate NoSentinel(s: seq<int>) {
    forall k :: 0 <= k < |s| ==> s[k] != NoPred
  }

  /**
   The tie-break between the first two branches `first` and `second`,
   counted over the predecessor column of node 0: the second branch is left
   only when the first one is strictly more frequent there.
   */
  function SelectLeft(col0: seq<int>, first: int, second: int): (left: int)
    ensures left == if multiset(col0)[first] > multiset(col0)[second] then second else first
  {
    CountEqIsMultiplicity(col0, first);
    CountEqIsMultiplicity(col0, second);
    if CountEq(col0, first) > CountEq(col0, second) then second else first
  }

  /**
   The scan from row `i` onwards, with `junc` the branches found in the
   rows before `i`. A row contributes its predecessor when it is not the
   sentinel and not yet listed; the scan stops at the row that brings the
   list to two entries and resolves the left branch there.
   */
  function ScanRows(col: seq<int>, col0: seq<int>, i: nat, junc: seq<int>): (s: Scan)
    requires i <= |col|
    requires |junc| < 2 && NoSentinel(junc)
    ensures |s.junc| <= 2 && NoSentinel(s.junc)
    ensures |s.junc| == 2 ==> s.junc[0] != s.junc[1]
    ensures junc <= s.junc
    ensures forall k :: |junc| <= k < |s.junc| ==> s.junc[k] in col[i..]
    ensures s.left == NoPred <==> |s.junc| < 2
    ensures |s.junc| == 2 ==>
              (s.left == s.junc[1] <==> CountEq(col0, s.junc[0]) > CountEq(col0, s.junc[1]))
    ensures |s.junc| == 2 ==>
              (s.left == s.junc[0] <==> CountEq(col0, s.junc[0]) <= CountEq(col0, s.junc[1]))
    decreases |col| - i
  {
    if i == |col| then Scan(junc, NoPred)
    else
      var v := col[i];
      var junc' := if v != NoPred && v !in junc then junc + [v] else junc;
      if |junc'| == 2 then Scan(junc', SelectLeft(col0, junc'[0], junc'[1]))
      else ScanRows(col, col0, i + 1, junc')
  }

  /**
   The whole scan of `tree_pseudo_time` over the predecessor column `col`
   of the start node, with `col0` the predecessor column of node 0.
   */
  function Branches(col: seq<int>, col0: seq<int>): (s: Scan)
    ensures |s.junc| <= 2 && NoSentinel(s.junc)
    ensures |s.junc| == 2 ==> s.junc[0] != s.junc[1]
    ensures forall k :: 0 <= k < |s.junc| ==> s.junc[k] in col
    ensures s.left == NoPred <==> |s.junc| < 2
    ensures |s.junc| == 2 ==>
              (s.left == s.junc[1] <==> CountEq(col0, s.junc[0]) > CountEq(col0, s.junc[1]))
    ensures |s.junc| == 2 ==>
              (s.left == s.junc[0] <==> CountEq(col0, s.junc[0]) <= CountEq(col0, s.junc[1]))
  {
    ScanRows(col, col0, 0, [])
  }

  /** Every row before `n` holds the sentinel or one of `allowed`. */
  ghost predicate Covered(col: seq<int>, n: nat, allowed: seq<int>)
    requires n <= |col|
  {
    forall r :: 0 <= r < n ==> col[r] == NoPred || col[r] in allowed
  }

  /**
   Reference definition of the branch list over the rows before `n`:
   `junc[0]` is the predecessor in the first row that has one, `junc[1]`
   the predecessor in the first row whose predecessor is neither absent
   nor `junc[0]`, and while fewer than two are listed every predecessor
   seen so far is listed.
   */
  ghost predicate FirstBranches(col: seq<int>, n: nat, junc: seq<int>)
    requires n <= |col|
  {
    && |junc| <= 2
    && NoSentinel(junc)
    && (|junc| == 2 ==> junc[0] != junc[1])
    && (|junc| >= 1 ==>
          exists i :: 0 <= i < n && col[i] == junc[0] && Covered(col, i, []))
    && (|junc| == 2 ==>
          exists j :: 0 <= j < n && col[j] == junc[1] && Covered(col, j, junc[..1]))
    && (|junc| < 2 ==> Covered(col, n, junc))
  }

  /** Two rows before `n` hold different (non-sentinel) predecessors. */
  ghost predicate TwoDistinctBefore(col: seq<int>, n: nat)
    requires n <= |col|
  {
    exists i, j :: 0 <= i < n && 0 <= j < n && col[i] != NoPred && col[j] != NoPred && col[i] != col[j]
  }

  /** One step of the scan keeps the reference definition, one row further. */
  lemma ScanStepFinds(col: seq<int>, i: nat, junc: seq<int>)
    requires i < |col| && |junc| < 2 && FirstBranches(col, i, junc)
    ensures var v := col[i];
            FirstBranches(col, i + 1, if v != NoPred && v !in junc then junc + [v] else junc)
  {
    var v := col[i];
    if v != NoPred && v !in junc {
      var junc' := junc + [v];
      if |junc| == 0 {
        assert Covered(col, i, []);
        assert col[i] == junc'[0];
      } else {
        assert junc'[..1] == junc;
        assert col[i] == junc'[1];
        var i0 :| 0 <= i0 < i && col[i0] == junc[0] && Covered(col, i0, []);
        assert col[i0] == junc'[0];
      }
    } else {
      if |junc| == 1 {
        var i0 :| 0 <= i0 < i && col[i0] == junc[0] && Covered(col, i0, []);
        assert 0 <= i0 < i + 1;
      }
    }
  }

  /** A finished branch list stays correct when more rows are taken into view. */
  lemma FirstBranchesWiden(col: seq<int>, n: nat, m: nat, junc: seq<int>)
    requires n <= m <= |col| && |junc| == 2 && FirstBranches(col, n, junc)
    ensures FirstBranches(col, m, junc)
  {
    var i :| 0 <= i < n && col[i] == junc[0] && Covered(col, i, []);
    var j :| 0 <= j < n && col[j] == junc[1] && Covered(col, j, junc[..1]);
    assert 0 <= i < m && 0 <= j < m;
  }

  lemma {:induction false} ScanRowsFinds(col: seq<int>, col0: seq<int>, i: nat, junc: seq<int>)
    requires i <= |col| && |junc| < 2 && FirstBranches(col, i, junc)
    ensures FirstBranches(col, |col|, ScanRows(col, col0, i, junc).junc)
    decreases |col| - i
  {
    if i < |col| {
      var v := col[i];
      var junc' := if v != NoPred && v !in junc then junc + [v] else junc;
      ScanStepFinds(col, i, junc);
      if |junc'| == 2 {
        FirstBranchesWiden(col, i + 1, |col|, junc');
      } else {
        ScanRowsFinds(col, col0, i + 1, junc');
      }
    }
  }

  /** The scan computes the branch list of the reference definition. */
  lemma ScanFindsFirstBranches(col: seq<int>, col0: seq<int>)
    ensures FirstBranches(col, |col|, Branches(col, col0).junc)
  {
    assert FirstBranches(col, 0, []);
    ScanRowsFinds(col, col0, 0, []);
  }

  /**
   Two witness rows give the reference branch list: row `i` is the first
   with a predecessor, row `j` the first with a predecessor other than it.
   */
  lemma FirstBranchesFromRows(col: seq<int>, i: nat, j: nat)
    requires i < |col| && j < |col|
    requires col[i] != NoPred && Covered(col, i, [])
    requires col[j] != NoPred && col[j] != col[i] && Covered(col, j, [col[i]])
    ensures FirstBranches(col, |col|, [col[i], col[j]])
  {
    var junc := [col[i], col[j]];
    assert junc[..1] == [col[i]];
    assert col[i] == junc[0] && col[j] == junc[1];
  }

  /** Two rows that are each the first outside `allowed` are the same row. */
  lemma FirstRowUnique(col: seq<int>, i: nat, j: nat, allowed: seq<int>)
    requires i < |col| && j < |col| && Covered(col, i, allowed) && Covered(col, j, allowed)
    requires col[i] != NoPred && col[i] !in allowed
    requires col[j] != NoPred && col[j] !in allowed
    ensures i == j
  {
  }

  /** Two reference branch lists agree on their first entry. */
  lemma SameFirstBranch(col: seq<int>, a: seq<int>, b: seq<int>)
    requires FirstBranches(col, |col|, a) && FirstBranches(col, |col|, b)
    requires |a| >= 1
    ensures |b| >= 1 && b[0] == a[0]
  {
    var ia :| 0 <= ia < |col| && col[ia] == a[0] && Covered(col, ia, []);
    assert |b| >= 1 by {
      assert col[ia] != NoPred;
    }
    var ib :| 0 <= ib < |col| && col[ib] == b[0] && Covered(col, ib, []);
    FirstRowUnique(col, ia, ib, []);
  }

  /** Two reference branch lists agree on their second entry. */
  lemma SameSecondBranch(col: seq<int>, a: seq<int>, b: seq<int>)
    requires FirstBranches(col, |col|, a) && FirstBranches(col, |col|, b)
    requires |a| == 2
    ensures |b| == 2 && b[1] == a[1]
  {
    SameFirstBranch(col, a, b);
    var ja :| 0 <= ja < |col| && col[ja] == a[1] && Covered(col, ja, a[..1]);
    assert |b| == 2 by {
      assert col[ja] != NoPred && col[ja] != b[0];
    }
    var jb :| 0 <= jb < |col| && col[jb] == b[1] && Covered(col, jb, b[..1]);
    assert a[..1] == b[..1] == [a[0]];
    FirstRowUnique(col, ja, jb, a[..1]);
  }

  /** The reference definition admits exactly one branch list. */
  lemma FirstBranchesUnique(col: seq<int>, a: seq<int>, b: seq<int>)
    requires FirstBranches(col, |col|, a) && FirstBranches(col, |col|, b)
    ensures a == b
  {
    if |a| >= 1 { SameFirstBranch(col, a, b); }
    if |b| >= 1 { SameFirstBranch(col, b, a); }
    if |a| == 2 { SameSecondBranch(col, a, b); }
    if |b| == 2 { SameSecondBranch(col, b, a); }
    assert |a| == |b|;
    assert forall k :: 0 <= k < |a| ==> a[k] == b[k];
  }

  /**
   A left branch is chosen exactly when the column holds two different
   predecessors; otherwise `left` stays the sentinel.
   */
  lemma BranchFoundIff(col: seq<int>, col0: seq<int>)
    ensures Branches(col, col0).left != NoPred <==> TwoDistinctBefore(col, |col|)
  {
    var s := Branches(col, col0);
    ScanFindsFirstBranches(col, col0);
    if |s.junc| == 2 {
      var i :| 0 <= i < |col| && col[i] == s.junc[0] && Covered(col, i, []);
      var j :| 0 <= j < |col| && col[j] == s.junc[1] && Covered(col, j, s.junc[..1]);
      assert col[i] != NoPred && col[j] != NoPred && col[i] != col[j];
    } else {
      assert Covered(col, |col|, s.junc);
    }
  }

  /**
   The left branch against the reference branch list: the second branch
   when the first is strictly more frequent among the predecessors of
   node 0, the first branch otherwise (ties included).
   */
  lemma LeftOfFirstBranches(col: seq<int>, col0: seq<int>, junc: seq<int>)
    requires FirstBranches(col, |col|, junc) && |junc| == 2
    ensures Branches(col, col0).junc == junc
    ensures Branches(col, col0).left
            == if multiset(col0)[junc[0]] > multiset(col0)[junc[1]] then junc[1] else junc[0]
  {
    ScanFindsFirstBranches(col, col0);
    FirstBranchesUnique(col, Branches(col, col0).junc, junc);
    CountEqIsMultiplicity(col0, junc[0]);
    CountEqIsMultiplicity(col0, junc[1]);
  }

  /** Rows whose predecessors all lie in a list of at most one entry hold no two different ones. */
  lemma CoveredByOne(col: seq<int>, n: nat, junc: seq<int>)
    requires n <= |col| && |junc| < 2 && Covered(col, n, junc)
    ensures !TwoDistinctBefore(col, n)
  {
  }

  lemma {:induction false} ScanIgnoresLaterRows(col1: seq<int>, col2: seq<int>, col0: seq<int>,
                                                 i: nat, junc: seq<int>, m: nat)
    requires m <= |col1| && m <= |col2| && col1[..m] == col2[..m]
    requires i <= m && |junc| < 2 && NoSentinel(junc) && Covered(col1, i, junc)
    ensures TwoDistinctBefore(col1, m) ==> ScanRows(col1, col0, i, junc) == ScanRows(col2, col0, i, junc)
    decreases m - i
  {
    if i == m {
      CoveredByOne(col1, m, junc);
    } else {
      assert col1[i] == col2[i] by {
        assert col1[..m][i] == col2[..m][i];
      }
      var v := col1[i];
      var junc' := if v != NoPred && v !in junc then junc + [v] else junc;
      if |junc'| < 2 {
        ScanIgnoresLaterRows(col1, col2, col0, i + 1, junc', m);
      }
    }
  }

  /**
   Early exit: once the first `m` rows hold two different predecessors, the
   rows after them influence neither the branch list nor the left branch.
   */
  lemma EarlyExit(col1: seq<int>, col2: seq<int>, col0: seq<int>, m: nat)
    requires m <= |col1| && m <= |col2| && col1[..m] == col2[..m]
    requires TwoDistinctBefore(col1, m)
    ensures Branches(col1, col0) == Branches(col2, col0)
  {
    ScanIgnoresLaterRows(col1, col2, col0, 0, [], m);
  }
}
