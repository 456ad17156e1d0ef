/**
  The Levenshtein distance used by the fuzzy scanner: a recursive edit-distance
  specification over prefixes, the two-row dynamic programme of `distance`, and the
  facts about the distance that the scanner's tolerance rule relies on.
 */
module Levenshtein {

  function Min3(x: nat, y: nat, z: nat): (r: nat)
    ensures r <= x && r <= y && r <= z
    ensures r == x || r == y || r == z
  {
    if x <= y && x <= z then x else if y <= z then y else z
  }

  /** 1 when the characters differ (a substitution is needed), 0 when they agree. */
  function Cost(c: char, d: char): nat
  {
    if c != d then 1 else 0
  }

  /**
    The least number of single-character insertions, deletions and substitutions
    that turn `a` into `b`, by recursion on the last characters.
   */
  function EditDistance(a: string, b: string): nat
    decreases |a| + |b|
  {
    if |a| == 0 then |b|
    else if |b| == 0 then |a|
    else Min3(EditDistance(a, b[..|b| - 1]) + 1,
              EditDistance(a[..|a| - 1], b) + 1,
              EditDistance(a[..|a| - 1], b[..|b| - 1]) + Cost(a[|a| - 1], b[|b| - 1]))
  }

  /** The distance does not depend on which string is the source. */
  lemma {:induction false} Symmetric(a: string, b: string)
    ensures EditDistance(a, b) == EditDistance(b, a)
    decreases |a| + |b|
  {
    if |a| > 0 && |b| > 0 {
      Symmetric(a, b[..|b| - 1]);
      Symmetric(a[..|a| - 1], b);
      Symmetric(a[..|a| - 1], b[..|b| - 1]);
    }
  }

  /** A string is at distance 0 from itself. */
  lemma {:induction false} SelfDistance(a: string)
    ensures EditDistance(a, a) == 0
    decreases |a|
  {
    if |a| > 0 {
      SelfDistance(a[..|a| - 1]);
    }
  }

  /** Distance 0 only between equal strings. */
  lemma {:induction false} ZeroDistanceEqual(a: string, b: string)
    requires EditDistance(a, b) == 0
    ensures a == b
    decreases |a| + |b|
  {
    if |a| > 0 && |b| > 0 {
      ZeroDistanceEqual(a[..|a| - 1], b[..|b| - 1]);
      assert a == a[..|a| - 1] + [a[|a| - 1]];
      assert b == b[..|b| - 1] + [b[|b| - 1]];
    }
  }

  /** The distance from or to the empty string is the other string's length. */
  lemma EmptyDistance(b: string)
    ensures EditDistance([], b) == |b| && EditDistance(b, []) == |b|
  {
  }

  /** The distance is at least the difference of the lengths. */
  lemma {:induction false} LengthDifferenceBound(a: string, b: string)
    ensures EditDistance(a, b) >= |a| - |b| && EditDistance(a, b) >= |b| - |a|
    decreases |a| + |b|
  {
    if |a| > 0 && |b| > 0 {
      LengthDifferenceBound(a, b[..|b| - 1]);
      LengthDifferenceBound(a[..|a| - 1], b);
      LengthDifferenceBound(a[..|a| - 1], b[..|b| - 1]);
    }
  }

  /** The distance is at most the length of the longer string. */
  lemma {:induction false} LongerLengthBound(a: string, b: string)
    ensures EditDistance(a, b) <= if |a| <= |b| then |b| else |a|
    decreases |a| + |b|
  {
    if |a| > 0 && |b| > 0 {
      LongerLengthBound(a[..|a| - 1], b[..|b| - 1]);
    }
  }

  /** One substituted character puts two strings at distance at most 1. */
  lemma {:induction false} SubstitutionBound(u: string, c: char, d: char, v: string)
    ensures EditDistance(u + [c] + v, u + [d] + v) <= 1
    decreases |v|
  {
    if v == [] {
      assert u + [c] + v == u + [c] && (u + [c])[..|u|] == u;
      assert u + [d] + v == u + [d] && (u + [d])[..|u|] == u;
      SelfDistance(u);
    } else {
      var v' := v[..|v| - 1];
      SubstitutionBound(u, c, d, v');
      assert (u + [c] + v)[..|u + [c] + v| - 1] == u + [c] + v';
      assert (u + [d] + v)[..|u + [d] + v| - 1] == u + [d] + v';
    }
  }

  /** Cell (j, i) of the cost matrix: the distance between the prefixes `x[..j]` and `y[..i]`. */
  ghost function Matrix(x: string, y: string, j: nat, i: nat): nat
    requires j <= |x| && i <= |y|
  {
    EditDistance(x[..j], y[..i])
  }

  /** The first row and column of the cost matrix count characters. */
  lemma MatrixBorder(x: string, y: string, j: nat, i: nat)
    requires j <= |x| && i <= |y|
    ensures Matrix(x, y, j, 0) == j && Matrix(x, y, 0, i) == i
  {
  }

  /** One cell of the cost matrix from its three neighbours, as the inner loop of `Distance` computes it. */
  lemma MatrixCell(x: string, y: string, j: nat, i: nat)
    requires 1 <= j <= |x| && 1 <= i <= |y|
    ensures Matrix(x, y, j, i)
         == Min3(Matrix(x, y, j, i - 1) + 1,
                 Matrix(x, y, j - 1, i) + 1,
                 Matrix(x, y, j - 1, i - 1) + Cost(x[j - 1], y[i - 1]))
  {
    assert x[..j][..j - 1] == x[..j - 1];
    assert y[..i][..i - 1] == y[..i - 1];
  }

  /**
    One pass of the outer loop of `distance`: from row `i - 1` of the cost matrix, the
    row `[i] + [0] * n` is filled in cell by cell into row `i`.
   */
  method NextRow(x: string, y: string, previousRow: array<nat>, i: nat) returns (currentRow: array<nat>)
    requires 1 <= i <= |y| && previousRow.Length == |x| + 1
    requires forall k {:trigger previousRow[k]} :: 0 <= k <= |x| ==> previousRow[k] == Matrix(x, y, k, i - 1)
    ensures fresh(currentRow) && currentRow.Length == |x| + 1
    ensures forall k {:trigger currentRow[k]} :: 0 <= k <= |x| ==> currentRow[k] == Matrix(x, y, k, i)
  {
    var n := |x|;
    currentRow := new nat[n + 1](k => if k == 0 then i else 0);
    MatrixBorder(x, y, 0, i);
    var j := 1;
    while j <= n
      invariant 1 <= j <= n + 1
      invariant forall k {:trigger currentRow[k]} :: 0 <= k < j ==> currentRow[k] == Matrix(x, y, k, i)
    {
      var add, delete, change := previousRow[j] + 1, currentRow[j - 1] + 1, previousRow[j - 1];
      if x[j - 1] != y[i - 1] {
        change := change + 1;
      }
      MatrixCell(x, y, j, i);
      currentRow[j] := Min3(add, delete, change);
      j := j + 1;
    }
  }

  /**
    `distance(a, b)` of the source: the shorter string is made the inner dimension,
    only the previous and the current row of the cost matrix are kept, and the last
    cell of the last row is the answer.
   */
  method Distance(a: string, b: string) returns (d: nat)
    ensures d == EditDistance(a, b)
  {
    var x, y := a, b;
    var n, m := |a|, |b|;
    if n > m {
      x, y := b, a;
      n, m := m, n;
    }
    assert |x| == n && |y| == m;
    assert EditDistance(x, y) == EditDistance(a, b) by {
      Symmetric(a, b);
    }
    var currentRow := new nat[n + 1](k => k);
    forall k | 0 <= k <= n ensures currentRow[k] == Matrix(x, y, k, 0) {
      MatrixBorder(x, y, k, 0);
    }
    var i := 1;
    while i <= m
      invariant 1 <= i <= m + 1
      invariant currentRow.Length == n + 1
      invariant forall k {:trigger currentRow[k]} :: 0 <= k <= n ==> currentRow[k] == Matrix(x, y, k, i - 1)
    {
      var previousRow := currentRow;
      currentRow := NextRow(x, y, previousRow, i);
      i := i + 1;
    }
    assert Matrix(x, y, n, m) == EditDistance(x, y) by {
      assert x[..n] == x && y[..m] == y;
    }
    d := currentRow[n];
  }
}
