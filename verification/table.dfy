/** The tabulated matcher: a (|s|+1) x (|p|+1) table whose cell (i, j) says
    whether the prefix s[..i] is matched in full by the prefix p[..j]. */
module RegexTable {
  import opened RegexRecursive

  /** The table recurrence, read as a function of the prefix lengths: column 0
      holds only for the empty text; a column ending in '*' holds when the
      starred token is skipped, or when it absorbs one more text character;
      any other column needs the last characters to agree. */
  function Cell(s: string, p: string, i: nat, j: nat): bool
    requires WellFormed(p)
    requires i <= |s| && j <= |p|
    decreases i + j
  {
    if j == 0 then i == 0
    else if p[j - 1] == '*' then
      Cell(s, p, i, j - 2) || (0 < i && Accepts(p[j - 2], s[i - 1]) && Cell(s, p, i - 1, j))
    else
      0 < i && Accepts(p[j - 1], s[i - 1]) && Cell(s, p, i - 1, j - 1)
  }

  /** A pattern that can match the empty text: an even number of tokens,
      every odd position a '*' and every even position an operand. */
  predicate StarPairs(q: string) {
    |q| % 2 == 0 && forall k :: 0 <= k < |q| ==> (q[k] == '*' <==> k % 2 == 1)
  }

  lemma PrefixWellFormed(p: string, j: nat)
    requires WellFormed(p) && j <= |p|
    ensures WellFormed(p[..j])
  {
    forall k | 0 <= k < j && p[..j][k] == '*'
      ensures 0 < k && p[..j][k - 1] != '*'
    {
      assert p[k] == '*';
    }
  }

  /** Cell (i, j) of the table says exactly that the recursive matcher
      accepts the text prefix s[..i] against the pattern prefix p[..j]. */
  lemma {:induction false} CellMeaning(s: string, p: string, i: nat, j: nat)
    requires WellFormed(p)
    requires i <= |s| && j <= |p|
    ensures Cell(s, p, i, j) == IsMatchRecursive(s[..i], p[..j])
    decreases i + j
  {
    var t, q := s[..i], p[..j];
    if j > 0 {
      PrefixWellFormed(p, j);
      assert q[0] == p[0] != '*';
      if 0 < i {
        assert t[..i - 1] == s[..i - 1];
      }
      if p[j - 1] == '*' {
        assert q[..j - 2] == p[..j - 2];
        PeelStar(t, q, 0, 0);
        CellMeaning(s, p, i, j - 2);
        if 0 < i {
          CellMeaning(s, p, i - 1, j);
        }
      } else {
        assert q[..j - 1] == p[..j - 1];
        PeelLiteral(t, q, 0, 0);
        if 0 < i {
          CellMeaning(s, p, i - 1, j - 1);
        }
      }
    }
  }

  /** The corner cell of the table agrees with the recursive matcher. */
  lemma CellAgrees(s: string, p: string)
    requires WellFormed(p)
    ensures Cell(s, p, |s|, |p|) == IsMatchRecursive(s, p)
  {
    CellMeaning(s, p, |s|, |p|);
    assert s[..|s|] == s && p[..|p|] == p;
  }

  /** Row 0 (the empty text): cell (0, j) holds exactly when p[..j] is a run
      of operand-'*' pairs such as "a*b*c*"; in particular cell (0, 1) is
      false. */
  lemma {:induction false} EmptyTextRow(s: string, p: string, j: nat)
    requires WellFormed(p) && j <= |p|
    ensures Cell(s, p, 0, j) <==> StarPairs(p[..j])
    decreases j
  {
    if j == 1 {
      assert p[..1][0] == p[0] != '*';
    } else if j > 1 {
      EmptyTextRow(s, p, j - 2);
      var q, q' := p[..j], p[..j - 2];
      if p[j - 1] == '*' {
        assert p[j - 2] != '*';
        if StarPairs(q') {
          forall k | 0 <= k < j
            ensures q[k] == '*' <==> k % 2 == 1
          {
            if k < j - 2 {
              assert q[k] == q'[k];
            }
          }
        }
        if StarPairs(q) {
          forall k | 0 <= k < j - 2
            ensures q'[k] == '*' <==> k % 2 == 1
          {
            assert q[k] == q'[k];
          }
        }
      } else {
        assert !StarPairs(q) by {
          if |q| % 2 == 0 {
            assert q[j - 1] != '*';
          }
        }
      }
    }
  }

  /** The empty text is matched exactly by the patterns made of
      operand-'*' pairs. */
  lemma EmptyText(p: string)
    requires WellFormed(p)
    ensures IsMatchRecursive([], p) <==> StarPairs(p)
  {
    CellAgrees([], p);
    EmptyTextRow([], p, |p|);
    assert p[..|p|] == p;
  }

  /** Builds the full table: row 0 first (only columns ending in '*' can
      hold), then row by row, left to right, each cell reading the row above
      and earlier columns of its own row. */
  method FillTable(s: string, p: string) returns (dp: array2<bool>)
    requires WellFormed(p)
    ensures fresh(dp)
    ensures dp.Length0 == |s| + 1 && dp.Length1 == |p| + 1
    ensures forall a, b :: 0 <= a <= |s| && 0 <= b <= |p| ==> dp[a, b] == Cell(s, p, a, b)
    ensures forall a, b :: 0 <= a <= |s| && 0 <= b <= |p| ==>
      dp[a, b] == IsMatchRecursive(s[..a], p[..b])
  {
    var m, n := |s|, |p|;
    dp := new bool[m + 1, n + 1]((_, _) => false);
    dp[0, 0] := true;
    var j := 2;
    while j <= n
      invariant 2 <= j <= n + 2
      invariant forall b :: 0 <= b < j && b <= n ==> dp[0, b] == Cell(s, p, 0, b)
      invariant forall b :: j <= b <= n ==> !dp[0, b]
      invariant forall a, b :: 1 <= a <= m && 0 <= b <= n ==> !dp[a, b]
    {
      if p[j - 1] == '*' {
        dp[0, j] := dp[0, j - 2];
      }
      j := j + 1;
    }
    var i := 1;
    while i <= m
      invariant 1 <= i <= m + 1
      invariant forall a, b :: 0 <= a < i && 0 <= b <= n ==> dp[a, b] == Cell(s, p, a, b)
      invariant forall a, b :: i <= a <= m && 0 <= b <= n ==> !dp[a, b]
    {
      j := 1;
      while j <= n
        invariant 1 <= j <= n + 1
        invariant forall a, b :: 0 <= a < i && 0 <= b <= n ==> dp[a, b] == Cell(s, p, a, b)
        invariant forall b :: 0 <= b < j ==> dp[i, b] == Cell(s, p, i, b)
        invariant forall b :: j <= b <= n ==> !dp[i, b]
        invariant forall a, b :: i < a <= m && 0 <= b <= n ==> !dp[a, b]
      {
        if p[j - 1] == '*' {
          dp[i, j] := dp[i, j - 2];
          if s[i - 1] == p[j - 2] || p[j - 2] == '.' {
            dp[i, j] := dp[i, j] || dp[i - 1, j];
          }
        } else {
          if s[i - 1] == p[j - 1] || p[j - 1] == '.' {
            dp[i, j] := dp[i - 1, j - 1];
          }
        }
        j := j + 1;
      }
      i := i + 1;
    }
    forall a, b | 0 <= a <= m && 0 <= b <= n
      ensures Cell(s, p, a, b) == IsMatchRecursive(s[..a], p[..b])
    {
      CellMeaning(s, p, a, b);
    }
  }

  /** The tabulated matcher returns the corner cell, which is what the
      recursive matcher computes. */
  method IsMatchDp(s: string, p: string) returns (r: bool)
    requires WellFormed(p)
    ensures r == IsMatchRecursive(s, p)
  {
    var dp := FillTable(s, p);
    r := dp[|s|, |p|];
    assert s[..|s|] == s && p[..|p|] == p;
  }
}
