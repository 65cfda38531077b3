/**
 The preference matrix (`preferenceMatrix`, pages/index.js:6, 22-24, 31-37).

 A grid of integers indexed by candidate position. `Record` is the cell
 update of `recordPreference`: the source copies every row before writing,
 so the caller's matrix is never changed; as a Dafny value that holds by
 construction.
 */
module Matrix {

  type Grid = seq<seq<int>>

  /** `m` has `n` rows of `n` cells each. */
  predicate IsSquare(m: Grid, n: nat) {
    |m| == n && forall r | 0 <= r < |m| :: |m[r]| == n
  }

  /** Square, and every cell is the negation of its mirror cell. */
  predicate SkewSymmetric(m: Grid) {
    IsSquare(m, |m|) &&
    forall r, c | 0 <= r < |m| && 0 <= c < |m| :: m[r][c] == -m[c][r]
  }

  predicate ZeroDiagonal(m: Grid)
    requires IsSquare(m, |m|)
  {
    forall r | 0 <= r < |m| :: m[r][r] == 0
  }

  /** The fresh `n x n` matrix of zeros built by `startVoting`. */
  function ZeroGrid(n: nat): (m: Grid)
    ensures IsSquare(m, n)
    ensures forall r, c | 0 <= r < n && 0 <= c < n :: m[r][c] == 0
    ensures SkewSymmetric(m)
  {
    seq(n, _ => seq(n, _ => 0))
  }

  /** `newMatrix[i][j] += value; newMatrix[j][i] -= value` on a copy of `m`. */
  function Record(m: Grid, i: nat, j: nat, v: int): (m': Grid)
    requires IsSquare(m, |m|) && i < |m| && j < |m|
    ensures IsSquare(m', |m|)
    ensures i != j ==> m'[i][j] == m[i][j] + v && m'[j][i] == m[j][i] - v
    ensures i == j ==> m' == m
    ensures forall r, c | 0 <= r < |m| && 0 <= c < |m| && (r, c) != (i, j) && (r, c) != (j, i) ::
              m'[r][c] == m[r][c]
  {
    var a := m[i := m[i][j := m[i][j] + v]];
    var m' := a[j := a[j][i := a[j][i] - v]];
    assert i == j ==> m'[i] == m[i][i := m[i][i]] == m[i];
    m'
  }

  /** Two grids of the same shape with the same cells are the same grid. */
  lemma GridExtensional(x: Grid, y: Grid, n: nat)
    requires IsSquare(x, n) && IsSquare(y, n)
    requires forall r, c | 0 <= r < n && 0 <= c < n :: x[r][c] == y[r][c]
    ensures x == y
  {
    forall r | 0 <= r < n
      ensures x[r] == y[r]
    {
      assert forall c | 0 <= c < n :: x[r][c] == y[r][c];
    }
  }

  /** Over the integers skew-symmetry already forces a zero diagonal. */
  lemma SkewHasZeroDiagonal(m: Grid)
    requires SkewSymmetric(m)
    ensures ZeroDiagonal(m)
  {
    forall r | 0 <= r < |m|
      ensures m[r][r] == 0
    {
      assert m[r][r] == -m[r][r];
    }
  }

  /** Recording any value keeps a skew-symmetric matrix skew-symmetric
      (and so keeps its diagonal zero). */
  lemma RecordPreservesSkew(m: Grid, i: nat, j: nat, v: int)
    requires SkewSymmetric(m) && i < |m| && j < |m|
    ensures SkewSymmetric(Record(m, i, j, v))
    ensures ZeroDiagonal(Record(m, i, j, v))
  {
    var m' := Record(m, i, j, v);
    forall r, c | 0 <= r < |m| && 0 <= c < |m|
      ensures m'[r][c] == -m'[c][r]
    {
      if i != j && (r, c) == (i, j) {
        assert m'[c][r] == m[j][i] - v;
      }
    }
    SkewHasZeroDiagonal(m');
  }

  /** Recording twice for the same pair accumulates rather than overwrites. */
  lemma RecordAccumulates(m: Grid, i: nat, j: nat, a: int, b: int)
    requires IsSquare(m, |m|) && i < |m| && j < |m|
    ensures Record(Record(m, i, j, a), i, j, b) == Record(m, i, j, a + b)
  {
    GridExtensional(Record(Record(m, i, j, a), i, j, b), Record(m, i, j, a + b), |m|);
  }

  /** Recording `v` for `(i, j)` is recording `-v` for `(j, i)`. */
  lemma RecordMirror(m: Grid, i: nat, j: nat, v: int)
    requires IsSquare(m, |m|) && i < |m| && j < |m|
    ensures Record(m, i, j, v) == Record(m, j, i, -v)
  {
    GridExtensional(Record(m, i, j, v), Record(m, j, i, -v), |m|);
  }

  /** The order in which preferences are recorded does not affect the matrix. */
  lemma RecordCommutes(m: Grid, i: nat, j: nat, a: int, k: nat, l: nat, b: int)
    requires IsSquare(m, |m|) && i < |m| && j < |m| && k < |m| && l < |m|
    ensures Record(Record(m, i, j, a), k, l, b) == Record(Record(m, k, l, b), i, j, a)
  {
    GridExtensional(Record(Record(m, i, j, a), k, l, b), Record(Record(m, k, l, b), i, j, a), |m|);
  }
}
