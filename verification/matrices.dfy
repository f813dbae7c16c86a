/**
 Dense matrices as sequences of rows, with the two numpy idioms the
 pseudo-time computation uses: taking a column (`M[:, c]`) and counting the
 entries of a vector equal to a value (`(v == x).sum()`).
 */
module Matrices {

  /** True when `M` has `n` rows of `n` entries each. */
  predicate IsSquare<T>(M: seq<seq<T>>, n: nat) {
    |M| == n && forall i :: 0 <= i < n ==> |M[i]| == n
  }

  /** Column `c` of `M`, read from row 0 downwards. */
  function Column<T>(M: seq<seq<T>>, c: nat): (col: seq<T>)
    requires forall i :: 0 <= i < |M| ==> c < |M[i]|
    ensures |col| == |M|
    ensures forall i :: 0 <= i < |M| ==> col[i] == M[i][c]
  {
    seq(|M|, i requires 0 <= i < |M| => M[i][c])
  }

  /** Number of entries of `s` equal to `v`: the sum of the mask `s == v`. */
  function CountEq<T(==)>(s: seq<T>, v: T): (n: nat)
    ensures n <= |s|
    ensures n == 0 <==> v !in s
  {
    if |s| == 0 then 0
    else CountEq(s[..|s| - 1], v) + (if s[|s| - 1] == v then 1 else 0)
  }

  /** The mask sum agrees with the multiplicity of `v` in `s`. */
  lemma {:induction false} CountEqIsMultiplicity<T>(s: seq<T>, v: T)
    ensures CountEq(s, v) == multiset(s)[v]
  {
    if |s| > 0 {
      var init := s[..|s| - 1];
      CountEqIsMultiplicity(init, v);
      assert s == init + [s[|s| - 1]];
      assert multiset(s) == multiset(init) + multiset{s[|s| - 1]};
    }
  }

  /** Counts the entries of column `c` of `M` equal to `v`, row by row. */
  method CountInColumn(M: seq<seq<int>>, c: nat, v: int) returns (n: nat)
    requires forall i :: 0 <= i < |M| ==> c < |M[i]|
    ensures n == multiset(Column(M, c))[v]
    ensures n == CountEq(Column(M, c), v)
  {
    ghost var col := Column(M, c);
    n := 0;
    var r := 0;
    while r < |M|
      invariant 0 <= r <= |M|
      invariant n == CountEq(col[..r], v)
    {
      assert col[..r + 1][..r] == col[..r];
      if M[r][c] == v {
        n := n + 1;
      }
      r := r + 1;
    }
    assert col[..|M|] == col;
    CountEqIsMultiplicity(col, v);
  }
}
