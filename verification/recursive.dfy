/** Reference semantics of full-string matching with '.' (any one character)
    and '*' (zero or more of the preceding element): the recursive matcher
    that works on suffixes of the text and of the pattern. */
module RegexRecursive {

  /** A pattern token accepts a text character when it is that character
      or the wildcard '.'. */
  predicate Accepts(token: char, c: char) {
    token == c || token == '.'
  }

  /** Every '*' has an operand before it, and that operand is not itself a '*'
      (no leading '*', no "**"). The table-based matchers need this. */
  predicate WellFormed(p: string) {
    forall k :: 0 <= k < |p| && p[k] == '*' ==> 0 < k && p[k - 1] != '*'
  }

  /** Whether the suffix s[i..] is matched in full by the suffix p[j..].
      The recursion advances j by 1 or 2, or advances i by 1 while j stays. */
  function Match(s: string, p: string, i: nat, j: nat): bool
    requires i <= |s| && j <= |p|
    decreases |s| - i + |p| - j
  {
    if j == |p| then i == |s|
    else
      var firstMatch := i < |s| && Accepts(p[j], s[i]);
      if j + 1 < |p| && p[j + 1] == '*' then
        Match(s, p, i, j + 2) || (firstMatch && Match(s, p, i + 1, j))
      else
        firstMatch && Match(s, p, i + 1, j + 1)
  }

  /** The whole text against the whole pattern. */
  function IsMatchRecursive(s: string, p: string): (r: bool)
    ensures p == [] ==> (r <==> s == [])
  {
    Match(s, p, 0, 0)
  }

  /** Once the pattern is used up, the match holds exactly when the text is
      used up too; in particular the empty text matches the empty pattern. */
  lemma PatternExhausted(s: string, p: string, i: nat)
    requires i <= |s|
    ensures Match(s, p, i, |p|) <==> i == |s|
    ensures IsMatchRecursive([], [])
  {
  }

  /** Each character of the star-free pattern q accepts the text character
      at the same position, and the two have the same length. */
  predicate AcceptsAll(q: string, t: string) {
    |q| == |t| && forall k :: 0 <= k < |q| ==> Accepts(q[k], t[k])
  }

  /** A suffix of the pattern without '*' matches exactly the suffix of the
      text that it accepts position by position. */
  lemma {:induction false} LiteralSuffix(s: string, p: string, i: nat, j: nat)
    requires i <= |s| && j <= |p|
    requires forall k :: j <= k < |p| ==> p[k] != '*'
    ensures Match(s, p, i, j) <==> AcceptsAll(p[j..], s[i..])
    decreases |p| - j
  {
    if j < |p| && i < |s| {
      LiteralSuffix(s, p, i + 1, j + 1);
      assert p[j..] == [p[j]] + p[j + 1..];
      assert s[i..] == [s[i]] + s[i + 1..];
    }
  }

  /** A pattern without '*' matches a text exactly when both have the same
      length and each pattern character accepts the text character at the
      same position. */
  lemma LiteralPattern(s: string, p: string)
    requires forall k :: 0 <= k < |p| ==> p[k] != '*'
    ensures IsMatchRecursive(s, p) <==>
      |s| == |p| && forall k :: 0 <= k < |p| ==> Accepts(p[k], s[k])
  {
    LiteralSuffix(s, p, 0, 0);
    assert p[0..] == p && s[0..] == s;
  }

  /** The two-token pattern x* matches a suffix of the text exactly when
      every character of that suffix is accepted by x (the empty suffix
      included). */
  lemma {:induction false} StarSuffix(s: string, x: char, i: nat)
    requires i <= |s|
    ensures Match(s, [x, '*'], i, 0) <==> forall k :: i <= k < |s| ==> Accepts(x, s[k])
    decreases |s| - i
  {
    if i < |s| {
      StarSuffix(s, x, i + 1);
    }
  }

  /** x* matches every text whose characters are all accepted by x, and no
      other; so "a*" matches "", "a", "aa", ... and ".*" matches everything. */
  lemma StarPattern(s: string, x: char)
    ensures IsMatchRecursive(s, [x, '*']) <==> forall k :: 0 <= k < |s| ==> Accepts(x, s[k])
  {
    StarSuffix(s, x, 0);
  }

  /** Peeling the last token when it is a single (non-'*') token: the last
      text character must be accepted by it, and the rest must match the
      rest. This is how the prefix table reads the same relation. */
  lemma {:induction false} PeelLiteral(t: string, q: string, i: nat, j: nat)
    requires WellFormed(q)
    requires i <= |t| && j < |q| && q[j] != '*' && q[|q| - 1] != '*'
    ensures Match(t, q, i, j) <==>
      i < |t| && Accepts(q[|q| - 1], t[|t| - 1]) && Match(t[..|t| - 1], q[..|q| - 1], i, j)
    decreases |t| - i + |q| - j
  {
    var t', q' := if i < |t| then t[..|t| - 1] else t, q[..|q| - 1];
    if j + 1 < |q| && q[j + 1] == '*' {
      assert q[j + 2] != '*';
      PeelLiteral(t, q, i, j + 2);
      if i < |t| && Accepts(q[j], t[i]) {
        PeelLiteral(t, q, i + 1, j);
      }
      if i < |t| {
        assert q'[j + 1] == '*';
        assert Match(t', q', i, j) ==
          Match(t', q', i, j + 2) || (i < |t'| && Accepts(q[j], t[i]) && Match(t', q', i + 1, j));
      }
    } else if j + 1 < |q| {
      if i < |t| {
        PeelLiteral(t, q, i + 1, j + 1);
        assert Match(t', q', i, j) == (i < |t'| && Accepts(q[j], t[i]) && Match(t', q', i + 1, j + 1));
      }
    }
  }

  /** Peeling a trailing "x*": either it matches nothing, or the last text
      character is accepted by x and the shorter text still matches the
      whole pattern. */
  lemma {:induction false} PeelStar(t: string, q: string, i: nat, j: nat)
    requires WellFormed(q)
    requires 2 <= |q| && q[|q| - 1] == '*'
    requires i <= |t| && j <= |q| - 2 && q[j] != '*'
    ensures Match(t, q, i, j) <==>
      Match(t, q[..|q| - 2], i, j)
      || (i < |t| && Accepts(q[|q| - 2], t[|t| - 1]) && Match(t[..|t| - 1], q, i, j))
    decreases |t| - i + |q| - j
  {
    var q' := q[..|q| - 2];
    var t' := if i < |t| then t[..|t| - 1] else t;
    var firstMatch := i < |t| && Accepts(q[j], t[i]);
    if j == |q| - 2 {
      if firstMatch {
        PeelStar(t, q, i + 1, j);
        assert Match(t', q, i, j) ==
          Match(t', q, i, j + 2) || (i < |t'| && Accepts(q[j], t[i]) && Match(t', q, i + 1, j));
      }
    } else if q[j + 1] == '*' {
      assert q[|q| - 2] != '*';
      assert q[j + 2] != '*';
      PeelStar(t, q, i, j + 2);
      if firstMatch {
        PeelStar(t, q, i + 1, j);
      }
      assert q'[j + 1] == '*';
      assert Match(t, q', i, j) ==
        Match(t, q', i, j + 2) || (firstMatch && Match(t, q', i + 1, j));
      if i < |t| {
        assert Match(t', q, i, j) ==
          Match(t', q, i, j + 2) || (i < |t'| && Accepts(q[j], t[i]) && Match(t', q, i + 1, j));
      }
    } else {
      if firstMatch {
        PeelStar(t, q, i + 1, j + 1);
      }
      assert Match(t, q', i, j) == (firstMatch && Match(t, q', i + 1, j + 1));
      if i < |t| {
        assert Match(t', q, i, j) == (i < |t'| && Accepts(q[j], t[i]) && Match(t', q, i + 1, j + 1));
      }
    }
  }

  /** "a**" is not well-formed: its second '*' repeats nothing the recursive
      matcher recognises, so it is read as a literal '*', and "a" is rejected.
      (The table recurrence would read it as repeating a literal '*' and
      accept "a"; the table matchers therefore require well-formed patterns.) */
  lemma DoubleStarDiverges()
    ensures !WellFormed("a**")
    ensures !IsMatchRecursive("a", "a**")
  {
    assert "a**"[2] == '*' && "a**"[1] == '*';
  }
}
