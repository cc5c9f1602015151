/** The compacted matcher: the same recurrence as the full table, kept in two
    rows of length |p|+1 that trade places after each text position. */
module RegexRolling {
  import opened RegexRecursive
  import opened RegexTable

  /** `prev` always holds the last completed table row; `curr` is reused from
      two rows back, so every cell of it that the row needs is written anew,
      column 0 and the non-matching single-token columns included. */
  method IsMatchDpOptimized(s: string, p: string) returns (r: bool)
    requires WellFormed(p)
    ensures r == IsMatchRecursive(s, p)
  {
    var m, n := |s|, |p|;
    var prev := new bool[n + 1](_ => false);
    var curr := new bool[n + 1](_ => false);
    prev[0] := true;
    var j := 2;
    while j <= n
      invariant 2 <= j <= n + 2
      invariant forall b :: 0 <= b < j && b <= n ==> prev[b] == Cell(s, p, 0, b)
      invariant forall b :: j <= b <= n ==> !prev[b]
    {
      if p[j - 1] == '*' {
        prev[j] := prev[j - 2];
      }
      j := j + 1;
    }
    var i := 1;
    while i <= m
      invariant 1 <= i <= m + 1
      invariant fresh(prev) && fresh(curr) && prev != curr
      invariant prev.Length == n + 1 && curr.Length == n + 1
      invariant forall b :: 0 <= b <= n ==> prev[b] == Cell(s, p, i - 1, b)
    {
      curr[0] := false;
      j := 1;
      while j <= n
        invariant 1 <= j <= n + 1
        invariant forall b :: 0 <= b <= n ==> prev[b] == Cell(s, p, i - 1, b)
        invariant forall b :: 0 <= b < j ==> curr[b] == Cell(s, p, i, b)
      {
        if p[j - 1] == '*' {
          curr[j] := curr[j - 2];
          if s[i - 1] == p[j - 2] || p[j - 2] == '.' {
            curr[j] := curr[j] || prev[j];
          }
        } else {
          if s[i - 1] == p[j - 1] || p[j - 1] == '.' {
            curr[j] := prev[j - 1];
          } else {
            curr[j] := false;
          }
        }
        j := j + 1;
      }
      prev, curr := curr, prev;
      i := i + 1;
    }
    r := prev[n];
    CellAgrees(s, p);
  }
}
