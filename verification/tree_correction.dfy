/**
 The signed pseudo-time of `ManifoldCorrectionTree.tree_pseudo_time`: the
 corrected distances from the start node, negated on the nodes that hang
 below the left branch of the first branch point met from the start node.

 `D` is the corrected distance matrix and `P` the predecessor matrix of the
 all-pairs shortest paths, both N x N; both are inputs here.
 */
module TreeCorrection {
  import opened Matrices
  import opened BranchScan

  /** The inputs `tree_pseudo_time` indexes without failing. */
  predicate WellShaped(D: seq<seq<real>>, P: seq<seq<int>>, start: nat) {
    IsSquare(D, |D|) && IsSquare(P, |D|) && start < |D|
  }

  /** Negates the entries of `row` whose predecessor in `col` is `left`. */
  function SignFlip(row: seq<real>, col: seq<int>, left: int): (out: seq<real>)
    requires |row| == |col|
    ensures |out| == |row|
    ensures forall r :: 0 <= r < |row| && col[r] == left ==> out[r] == -row[r]
    ensures forall r :: 0 <= r < |row| && col[r] != left ==> out[r] == row[r]
  {
    seq(|row|, r requires 0 <= r < |row| => if col[r] == left then -row[r] else row[r])
  }

  /**
   Flipping twice along the same mask restores the row: applying the
   negation a second time to the same row undoes the first.
   */
  lemma SignFlipTwiceIsIdentity(row: seq<real>, col: seq<int>, left: int)
    requires |row| == |col|
    ensures SignFlip(SignFlip(row, col, left), col, left) == row
  {
    var once := SignFlip(row, col, left);
    var twice := SignFlip(once, col, left);
    assert forall r :: 0 <= r < |row| ==> twice[r] == row[r];
  }

  /** The branch scan of `tree_pseudo_time` for node `start`. */
  function StartBranches(P: seq<seq<int>>, start: nat): Scan
    requires |P| > 0 && forall i :: 0 <= i < |P| ==> start < |P[i]| && 0 < |P[i]|
  {
    Branches(Column(P, start), Column(P, 0))
  }

  /**
   The pseudo-times from `start`: a fresh copy of row `D[start]`, negated
   where the predecessor of `start` is the left branch, when one was chosen.
   */
  function PseudoTime(D: seq<seq<real>>, P: seq<seq<int>>, start: nat): (pt: seq<real>)
    requires WellShaped(D, P, start)
    ensures |pt| == |D[start]| == |D|
    ensures forall r :: 0 <= r < |pt| ==> pt[r] == D[start][r] || pt[r] == -D[start][r]
    ensures var left := StartBranches(P, start).left;
            forall r :: 0 <= r < |pt| ==>
              pt[r] == (if left != NoPred && P[r][start] == left then -D[start][r] else D[start][r])
    ensures var left := StartBranches(P, start).left;
            pt[start] == (if left != NoPred && P[start][start] == left
                          then -D[start][start] else D[start][start])
  {
    var left := StartBranches(P, start).left;
    var pt := D[start];
    if left != NoPred then SignFlip(pt, Column(P, start), left) else pt
  }

  /**
   The pseudo-times against an independent description: with `junc` the
   first two distinct predecessors of `start` in row order, the output is
   the plain distance row when fewer than two exist, and otherwise the row
   negated exactly on the predecessor that is rarer (ties going to the
   first) among the predecessors of node 0.
   */
  lemma PseudoTimeMatchesReference(D: seq<seq<real>>, P: seq<seq<int>>, start: nat, junc: seq<int>)
    requires WellShaped(D, P, start)
    requires FirstBranches(Column(P, start), |P|, junc)
    ensures |junc| < 2 ==> PseudoTime(D, P, start) == D[start]
    ensures |junc| == 2 ==>
              var count0 := multiset(Column(P, 0));
              var left := if count0[junc[0]] > count0[junc[1]] then junc[1] else junc[0];
              forall r :: 0 <= r < |D| ==>
                PseudoTime(D, P, start)[r] == (if P[r][start] == left then -D[start][r] else D[start][r])
  {
    var col := Column(P, start);
    var s := StartBranches(P, start);
    ScanFindsFirstBranches(col, Column(P, 0));
    FirstBranchesUnique(col, s.junc, junc);
    if |junc| == 2 {
      CountEqIsMultiplicity(Column(P, 0), junc[0]);
      CountEqIsMultiplicity(Column(P, 0), junc[1]);
    }
  }

  /**
   No branch, no change: when the predecessors of `start` take at most one
   value besides the sentinel, the pseudo-times are the distance row itself.
   */
  lemma NoBranchIsIdentity(D: seq<seq<real>>, P: seq<seq<int>>, start: nat)
    requires WellShaped(D, P, start)
    requires forall r, q :: 0 <= r < |P| && 0 <= q < |P| && P[r][start] != NoPred && P[q][start] != NoPred
               ==> P[r][start] == P[q][start]
    ensures StartBranches(P, start).left == NoPred
    ensures PseudoTime(D, P, start) == D[start]
  {
    var col := Column(P, start);
    BranchFoundIff(col, Column(P, 0));
    assert !TwoDistinctBefore(col, |col|);
  }

  /**
   When the predecessors of `start` take two different values, a left
   branch is chosen; it is one of the predecessors of `start`, never the
   sentinel, and the entries negated are exactly those whose predecessor it is.
   */
  lemma BranchPointFlipsLeft(D: seq<seq<real>>, P: seq<seq<int>>, start: nat, i: nat, j: nat)
    requires WellShaped(D, P, start)
    requires i < |P| && j < |P| && P[i][start] != NoPred && P[j][start] != NoPred
    requires P[i][start] != P[j][start]
    ensures var left := StartBranches(P, start).left;
            && left != NoPred
            && (exists q :: 0 <= q < |P| && P[q][start] == left)
            && forall r :: 0 <= r < |D| ==>
                 (PseudoTime(D, P, start)[r] == -D[start][r] || P[r][start] != left)
                 && (P[r][start] != left ==> PseudoTime(D, P, start)[r] == D[start][r])
  {
    var col := Column(P, start);
    assert col[i] != NoPred && col[j] != NoPred && col[i] != col[j];
    BranchFoundIff(col, Column(P, 0));
    var s := StartBranches(P, start);
    assert s.left in s.junc;
    assert s.left in col;
  }

  /**
   Early exit at the level of the output: if two matrices agree on the
   predecessors of node 0 and on the first `m` rows of the predecessors of
   `start`, and those rows already hold two different predecessors, then
   both choose the same left branch and their outputs agree on every row
   whose predecessor of `start` agrees.
   */
  lemma PseudoTimeEarlyExit(D: seq<seq<real>>, P1: seq<seq<int>>, P2: seq<seq<int>>, start: nat, m: nat)
    requires WellShaped(D, P1, start) && WellShaped(D, P2, start)
    requires Column(P1, 0) == Column(P2, 0)
    requires m <= |D| && Column(P1, start)[..m] == Column(P2, start)[..m]
    requires TwoDistinctBefore(Column(P1, start), m)
    ensures StartBranches(P1, start) == StartBranches(P2, start)
    ensures forall r :: 0 <= r < |D| && P1[r][start] == P2[r][start] ==>
              PseudoTime(D, P1, start)[r] == PseudoTime(D, P2, start)[r]
  {
    EarlyExit(Column(P1, start), Column(P2, start), Column(P1, 0), m);
  }

  /** Whatever row 3 holds, the column starting -9999, 1, 2 has branches 1 then 2. */
  lemma ThirdNodeColumnBranches(last: int)
    ensures FirstBranches([NoPred, 1, 2, last], 4, [1, 2])
  {
    var c := [NoPred, 1, 2, last];
    assert Covered(c, 1, []);
    assert Covered(c, 2, [1]);
    FirstBranchesFromRows(c, 1, 2);
  }

  /**
   Column 0 of the tree with edges 0-1 and 0-2, node 3 hanging under 1:
   branches 1 then 2; 1 is the more frequent, so 2 is left.
   */
  lemma LeftWithThirdNodeUnderOne()
    ensures var c := [NoPred, 1, 2, 1];
            Branches(c, c).left == 2
  {
    var c := [NoPred, 1, 2, 1];
    ThirdNodeColumnBranches(c[3]);
    assert multiset(c) == multiset{NoPred, 1, 2} + multiset{c[3]} by {
      assert c == [NoPred, 1, 2] + [c[3]];
    }
    LeftOfFirstBranches(c, c, [1, 2]);
  }

  /** The same tree with node 3 hanging under 2: now 2 is the more frequent, so 1 is left. */
  lemma LeftWithThirdNodeUnderTwo()
    ensures var c := [NoPred, 1, 2, 2];
            Branches(c, c).left == 1
  {
    var c := [NoPred, 1, 2, 2];
    ThirdNodeColumnBranches(c[3]);
    assert multiset(c) == multiset{NoPred, 1, 2} + multiset{c[3]} by {
      assert c == [NoPred, 1, 2] + [c[3]];
    }
    LeftOfFirstBranches(c, c, [1, 2]);
  }

  /**
   When `start` is node 0, the tie-break counts over the very column being
   scanned, so rows after the early exit do change the left branch. In the
   tree with edges 0-1 and 0-2, the scan from node 0 stops at row 2 with
   branches 1 and 2; whether node 3 hangs under 1 or under 2 (row 3, never
   read by the scan) decides which branch is left.
   */
  lemma EarlyExitNeedsOtherColumn(P1: seq<seq<int>>, P2: seq<seq<int>>)
    requires IsSquare(P1, 4) && IsSquare(P2, 4)
    requires Column(P1, 0) == [NoPred, 1, 2, 1] && Column(P2, 0) == [NoPred, 1, 2, 2]
    ensures Column(P1, 0)[..3] == Column(P2, 0)[..3]
    ensures TwoDistinctBefore(Column(P1, 0), 3)
    ensures StartBranches(P1, 0).left == 2 && StartBranches(P2, 0).left == 1
  {
    assert Column(P1, 0)[1] != Column(P1, 0)[2];
    LeftWithThirdNodeUnderOne();
    LeftWithThirdNodeUnderTwo();
  }

  /** The branch list of the five-node example's column: 0 (row 1), then 1 (row 2). */
  lemma FiveNodeColumnBranches()
    ensures FirstBranches([NoPred, 0, 1, 0, 3], 5, [0, 1])
  {
    var c := [NoPred, 0, 1, 0, 3];
    assert Covered(c, 1, []);
    assert Covered(c, 2, [0]);
    FirstBranchesFromRows(c, 1, 2);
  }

  /** The scan behind the five-node example: branches 0 then 1, and 1 is left. */
  lemma LeftOfFiveNodeColumn()
    ensures var c := [NoPred, 0, 1, 0, 3];
            Branches(c, c).left == 1
  {
    var c := [NoPred, 0, 1, 0, 3];
    FiveNodeColumnBranches();
    assert multiset(c)[0] == 2 && multiset(c)[1] == 1 by {
      assert c == [NoPred, 0] + [1] + [0, 3];
    }
    LeftOfFirstBranches(c, c, [0, 1]);
  }

  /**
   The five-node example: from node 0 the scan meets predecessors 0 and
   then 1; 0 is the more frequent among the predecessors of node 0, so
   branch 1 is left and only node 2 is negated.
   */
  lemma FiveNodeExample(D: seq<seq<real>>, P: seq<seq<int>>)
    requires WellShaped(D, P, 0)
    requires D[0] == [0.0, 1.0, 2.0, 1.0, 2.0]
    requires Column(P, 0) == [NoPred, 0, 1, 0, 3]
    ensures PseudoTime(D, P, 0) == [0.0, 1.0, -2.0, 1.0, 2.0]
  {
    LeftOfFiveNodeColumn();
    var pt := PseudoTime(D, P, 0);
    assert pt[0] == 0.0 && pt[1] == 1.0 && pt[2] == -2.0 && pt[3] == 1.0 && pt[4] == 2.0;
  }

  /**
   The branch-discovery loop of `tree_pseudo_time`: scan the column of
   `start` row by row, stop at the second distinct predecessor and count the
   two candidates over column 0 to pick the left branch.
   */
  method FindLeftBranch(P: seq<seq<int>>, start: nat) returns (junc: seq<int>, left: int)
    requires |P| > 0 && forall i :: 0 <= i < |P| ==> start < |P[i]| && 0 < |P[i]|
    ensures Scan(junc, left) == StartBranches(P, start)
  {
    ghost var col := Column(P, start);
    ghost var col0 := Column(P, 0);
    junc := [];
    left := NoPred;
    var i := 0;
    while i < |P|
      invariant 0 <= i <= |P|
      invariant |junc| < 2 && NoSentinel(junc)
      invariant left == NoPred
      invariant ScanRows(col, col0, i, junc) == Branches(col, col0)
    {
      var v := P[i][start];
      if v != NoPred && v !in junc {
        junc := junc + [v];
      }
      if |junc| == 2 {
        var n0 := CountInColumn(P, 0, junc[0]);
        var n1 := CountInColumn(P, 0, junc[1]);
        if n0 > n1 {
          left := junc[1];
        } else {
          left := junc[0];
        }
        return;
      }
      i := i + 1;
    }
  }

  /** The sign-flip loop: negates, in a copy of `row`, the entries whose predecessor is `left`. */
  method FlipEntries(row: seq<real>, P: seq<seq<int>>, start: nat, left: int) returns (out: seq<real>)
    requires |row| == |P| && forall i :: 0 <= i < |P| ==> start < |P[i]|
    ensures |out| == |row|
    ensures forall k :: 0 <= k < |row| ==> out[k] == (if P[k][start] == left then -row[k] else row[k])
  {
    out := row;
    var r := 0;
    while r < |out|
      invariant 0 <= r <= |out| == |row|
      invariant forall k :: 0 <= k < r ==> out[k] == (if P[k][start] == left then -row[k] else row[k])
      invariant forall k :: r <= k < |out| ==> out[k] == row[k]
    {
      if P[r][start] == left {
        out := out[r := -out[r]];
      }
      r := r + 1;
    }
  }

  /**
   `tree_pseudo_time` as the loops it is written with: the branch scan, then
   the sign flip on a copy of `D[start]` when a left branch was chosen.
   */
  method TreePseudoTime(D: seq<seq<real>>, P: seq<seq<int>>, start: nat) returns (pt: seq<real>)
    requires WellShaped(D, P, start)
    ensures pt == PseudoTime(D, P, start)
  {
    var junc, left := FindLeftBranch(P, start);
    pt := D[start];
    if left != NoPred {
      pt := FlipEntries(pt, P, start, left);
    }
    assert forall k :: 0 <= k < |pt| ==> pt[k] == PseudoTime(D, P, start)[k];
  }
}
