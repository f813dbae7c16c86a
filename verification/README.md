# Tree pseudo-time of the manifold correction

This project models `ManifoldCorrectionTree.tree_pseudo_time`, the pseudo-time
assignment of the manifold tree correction. The method takes two inputs:

- `D`, the corrected (graph-geodesic) distance matrix.
- `P`, the shortest-path predecessor matrix, in which `-9999` marks "no predecessor".

Given a start node, the method does three things:

1. It scans the predecessor column of the start node (`P[:, start]`) in row order. It collects distinct predecessors into the branch list `junc` and stops as soon as two have been seen.
2. It picks the "left" branch by comparing how often the two branches occur in the predecessor column of node 0 (`P[:, 0]`). The second branch is left only when the first is strictly more frequent there. Ties go to the first.
3. It returns the distance row `D[start]`, negated on every node whose predecessor of `start` is the left branch.

The model has three modules, and both matrices are plain inputs:

- `Matrices` (`matrices.dfy`): square matrices as `seq<seq<_>>`, column extraction, and the mask count `(v == x).sum()`.
- `BranchScan` (`branch_scan.dfy`): the sentinel `NoPred`, the recursive scan `ScanRows`/`Branches`, and a declarative reference definition of the branch list (`FirstBranches`). It proves that the scan computes that list and that the reference list is unique. It also covers the left-branch rule and the early exit.
- `TreeCorrection` (`tree_correction.dfy`): the pure function `PseudoTime`, which returns a fresh sequence, and the lemmas that relate it to the reference description. It also holds the imperative loop version `TreePseudoTime`, proved equal to `PseudoTime`, and two worked examples.

The early exit is subtle in one case. Rows after the stopping row cannot change the branch list. They also cannot change the left branch, as long as column 0 stays the same (`PseudoTimeEarlyExit`). When `start` is node 0, though, the scanned column is column 0 itself. Later rows then change the counts, and with them the left branch. `EarlyExitNeedsOtherColumn` gives a concrete instance.

## Model

| member | source | states |
|---|---|---|
| `Matrices.CountEqIsMultiplicity` | cellSLAM/tree_correction.py:83 | the mask sum `(col == x).sum()` equals the number of occurrences of `x` in the column (its multiset multiplicity) |
| `Matrices.CountInColumn` | cellSLAM/tree_correction.py:83 | the row-by-row count over a column returns the multiplicity of the value in that column |
| `Matrices.CountEq` | cellSLAM/tree_correction.py:83 | the mask sum over a column is at most the column's length, and is zero exactly when the value does not occur in the column |
| `BranchScan.SelectLeft` | cellSLAM/tree_correction.py:83-86 | the tie-break gives the second branch when the first occurs strictly more often in column 0, and the first branch otherwise (ties included), counted as multiset multiplicities |
| `BranchScan.ScanRows` | cellSLAM/tree_correction.py:77-87 | scanning from row `i`: the list only grows from the given prefix, gains entries only from rows `i` onwards, never exceeds two entries, never holds the sentinel, holds no duplicate; `left` is the sentinel exactly when fewer than two branches were found, and otherwise is the second branch exactly when the first is strictly more frequent in column 0 and the first branch exactly when it is not (ties included) |
| `BranchScan.Branches` | cellSLAM/tree_correction.py:75-87 | the full scan: at most two distinct non-sentinel branches, each a value of the start node's predecessor column; left is never the sentinel once two branches are found, and follows the strict-versus-non-strict count rule |
| `BranchScan.ScanRowsFinds` | cellSLAM/tree_correction.py:77-82 | by induction over the rows, the scan continued from a correct partial list ends with the reference branch list of the whole column |
| `BranchScan.ScanFindsFirstBranches` | cellSLAM/tree_correction.py:77-82 | the scan's list is the reference list: entry 0 is the predecessor of the first row that has one, entry 1 that of the first row whose predecessor is neither absent nor entry 0, and a shorter list holds every predecessor of the column |
| `BranchScan.FirstBranchesUnique` | cellSLAM/tree_correction.py:77-82 | the reference description admits exactly one branch list, so it pins the discovery order down completely |
| `BranchScan.FirstBranchesFromRows` | cellSLAM/tree_correction.py:77-82 | a first predecessor row and a first row with a different predecessor determine the branch list as those two values, in that order |
| `BranchScan.BranchFoundIff` | cellSLAM/tree_correction.py:76-86 | a left branch is chosen if and only if the start node's predecessor column holds two different non-sentinel values |
| `BranchScan.LeftOfFirstBranches` | cellSLAM/tree_correction.py:83-86 | with the reference branch list `[b0, b1]`, left is `b1` when `b0` occurs strictly more often than `b1` in column 0, and `b0` otherwise |
| `BranchScan.ScanIgnoresLaterRows` | cellSLAM/tree_correction.py:82-87 | by induction: two columns that agree on rows before `m`, where those rows already hold two different predecessors, give the same scan result |
| `BranchScan.EarlyExit` | cellSLAM/tree_correction.py:82-87 | rows after a prefix that already holds two different predecessors affect neither the branch list nor the left branch |
| `TreeCorrection.SignFlip` | cellSLAM/tree_correction.py:90 | the masked negation keeps the row's length, negates every entry whose predecessor is `left` and leaves every other entry unchanged |
| `TreeCorrection.SignFlipTwiceIsIdentity` | cellSLAM/tree_correction.py:90 | negating twice along the same mask restores the original row |
| `TreeCorrection.PseudoTime` | cellSLAM/tree_correction.py:88-91 | the output has the length of `D[start]`; each entry is the distance or its negation; an entry is negated exactly when a left branch was chosen and the row's predecessor of `start` is that branch, with no special case for the start node itself |
| `TreeCorrection.PseudoTimeMatchesReference` | cellSLAM/tree_correction.py:75-91 | against the reference branch list: with fewer than two branches the output is `D[start]` unchanged; otherwise it is `D[start]` negated exactly on the rows whose predecessor is the branch picked by the multiset-count rule on column 0 |
| `TreeCorrection.NoBranchIsIdentity` | cellSLAM/tree_correction.py:76-89 | when the start node's predecessors take at most one non-sentinel value, left stays the sentinel and the output equals `D[start]` exactly |
| `TreeCorrection.BranchPointFlipsLeft` | cellSLAM/tree_correction.py:82-90 | when two rows hold different predecessors, the left branch is not the sentinel and occurs in the column; rows with that predecessor are negated and all other rows, sentinel rows included, keep their distance |
| `TreeCorrection.PseudoTimeEarlyExit` | cellSLAM/tree_correction.py:82-90 | two predecessor matrices that agree on column 0 and on the scanned prefix choose the same branches and left, and their outputs agree on every row whose predecessor of `start` agrees |
| `TreeCorrection.EarlyExitNeedsOtherColumn` | cellSLAM/tree_correction.py:83-87 | in the tree with edges 0-1 and 0-2, scanning from node 0 reads rows 0-2 only (column 0 is −9999,1,2,…), yet node 3 hanging under 1 makes 2 the left branch and node 3 hanging under 2 makes 1 the left branch |
| `TreeCorrection.FiveNodeExample` | cellSLAM/tree_correction.py:75-91 | for distance row 0,1,2,1,2 and predecessor column −9999,0,1,0,3 from node 0, the output is 0,1,−2,1,2 |
| `TreeCorrection.FindLeftBranch` | cellSLAM/tree_correction.py:75-87 | the scanning loop with its early `break` and the two counting passes over column 0 yield exactly the branch list and left branch of the functional scan |
| `TreeCorrection.FlipEntries` | cellSLAM/tree_correction.py:88-90 | negating in place along the mask gives a row of the same length, negated exactly where the predecessor is `left` |
| `TreeCorrection.TreePseudoTime` | cellSLAM/tree_correction.py:63-91 | the method as written with loops returns the same sequence as `PseudoTime` |

## Left out

- The constructor, the GPy latent-variable model and the distance functions (cellSLAM/tree_correction.py:36-57) are not modelled. They are model fitting and foreign numerics.
- The `graph` property (cellSLAM/tree_correction.py:59-61) is not modelled. It only delegates to a minimum spanning tree built by code outside this model.
- The base class `ManifoldCorrection` is not part of this model, nor is the computation of `tree_corrected_distances` and of the predecessor matrix (cellSLAM/tree_correction.py:73-74). `D` and `P` are parameters instead.
- Aliasing is not modelled. `D[start]` is a numpy view, so the in-place negation also changes the distance matrix it belongs to. If that matrix is cached, a second call with the same `start` flips the signs of that row back; the caching code is not part of this model. `PseudoTime` returns a fresh sequence, and `SignFlipTwiceIsIdentity` states the flip-back on its own.
- Input validation is not modelled. The code checks neither the shapes nor `start`: a bad index raises numpy's `IndexError`, and a negative `start` wraps to a row counted from the end. The model states square `N x N` matrices and `0 <= start < N` as preconditions and does not model an invalid-argument error. It follows the code, not a validating interface.
- Floating point is not modelled. Distances are `real`, and the only operation on them is negation. Negating the start node's zero distance gives `-0.0` in numpy, while `real` has no signed zero.
- The docstring says a direction is selected "randomly". The code is deterministic, and the model follows the code.
