/** helpers/levenshtein/levenshtein.go: the one-row dynamic program. */
module Levenshtein {
  import opened EditDistance

  /** One cell of the distance table: the first `j` characters of `s` against the first `i` of `t`. */
  ghost function Cell(s: string, t: string, i: nat, j: nat): nat
    requires i <= |t| && j <= |s|
  {
    Distance(s[..j], t[..i])
  }

  lemma BorderCells(s: string, t: string, i: nat, j: nat)
    requires i <= |t| && j <= |s|
    ensures Cell(s, t, i, 0) == i && Cell(s, t, 0, j) == j
  {
  }

  lemma InnerCell(s: string, t: string, i: nat, j: nat)
    requires 0 < i <= |t| && 0 < j <= |s|
    ensures Cell(s, t, i, j) ==
            if t[i - 1] == s[j - 1] then Cell(s, t, i - 1, j - 1)
            else Min(Min(Cell(s, t, i - 1, j - 1) + 1, Cell(s, t, i, j - 1) + 1), Cell(s, t, i - 1, j) + 1)
  {
    var p, q := s[..j], t[..i];
    assert Init(p) == s[..j - 1] && Last(p) == s[j - 1];
    assert Init(q) == t[..i - 1] && Last(q) == t[i - 1];
    if t[i - 1] == s[j - 1] {
      MatchTakesDiagonal(p, q);
    }
  }

  method ComputeDistance(a: string, b: string) returns (d: nat)
    ensures IsEditDistance(a, b, d)
  {
    DistanceIsEditDistance(a, b);
    if |a| == 0 {
      return |b|;
    }
    if |b| == 0 {
      return |a|;
    }
    if a == b {
      ZeroExactlyOnEquality(a, b);
      return 0;
    }
    var s1, s2 := a, b;
    if |s1| > |s2| {
      s1, s2 := s2, s1;
      Symmetric(a, b);
    }
    d := FillRows(s1, s2);
  }

  /** Row `i` of the distance table. */
  ghost predicate IsRow(s: string, t: string, i: nat, row: seq<int>)
    requires i <= |t|
  {
    |row| == |s| + 1 && forall k :: 0 <= k <= |s| ==> row[k] == Cell(s, t, i, k)
  }

  /** The second half of ComputeDistance: the row `x` is overwritten once per character of `s2`. */
  method FillRows(s1: string, s2: string) returns (d: nat)
    ensures d == Distance(s1, s2)
  {
    var lenS1, lenS2 := |s1|, |s2|;
    var x := new int[lenS1 + 1];
    for i := 0 to x.Length
      invariant forall k :: 0 <= k < i ==> x[k] == Cell(s1, s2, 0, k)
    {
      x[i] := i;
      BorderCells(s1, s2, 0, i);
    }
    for i := 1 to lenS2 + 1
      invariant IsRow(s1, s2, i - 1, x[..])
    {
      OverwriteRow(s1, s2, x, i);
    }
    assert s1[..lenS1] == s1 && s2[..lenS2] == s2;
    return x[lenS1];
  }

  /** The inner loop: cells before j - 1 belong to row i, the others still to row i - 1, and `prev` is the
      cell of row i that is not stored yet. */
  method OverwriteRow(s1: string, s2: string, x: array<int>, i: nat)
    requires 1 <= i <= |s2| && IsRow(s1, s2, i - 1, x[..])
    modifies x
    ensures IsRow(s1, s2, i, x[..])
  {
    var lenS1, prev := |s1|, i;
    BorderCells(s1, s2, i, 0);
    for j := 1 to lenS1 + 1
      invariant prev == Cell(s1, s2, i, j - 1)
      invariant forall k :: 0 <= k < j - 1 ==> x[k] == Cell(s1, s2, i, k)
      invariant forall k :: j - 1 <= k <= lenS1 ==> x[k] == Cell(s1, s2, i - 1, k)
    {
      InnerCell(s1, s2, i, j);
      var current;
      if s2[i - 1] == s1[j - 1] {
        current := x[j - 1];
      } else {
        current := Min(Min(x[j - 1] + 1, prev + 1), x[j] + 1);
      }
      x[j - 1] := prev;
      prev := current;
    }
    x[lenS1] := prev;
  }
}
