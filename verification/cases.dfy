/** The test vectors of the program's test harness: every strategy is run on each
    (text, pattern) pair and compared with one expected answer. */
module RegexCases {
  import opened RegexRecursive
  import opened RegexTable
  import opened RegexRolling

  /** The expected answers, stated for the reference matcher. */
  lemma Vectors()
    ensures !IsMatchRecursive("aa", "a")
    ensures IsMatchRecursive("aa", "a*")
    ensures IsMatchRecursive("ab", ".*")
    ensures IsMatchRecursive("aab", "c*a*b")
    ensures !IsMatchRecursive("mississippi", "mis*is*p*.")
    ensures IsMatchRecursive("", "a*")
    ensures IsMatchRecursive("", ".*")
    ensures IsMatchRecursive("a", "ab*")
    ensures !IsMatchRecursive("ab", ".*c")
    ensures IsMatchRecursive("aaa", "a*a")
  {
  }

  /** Runs the three strategies on one pair, in the harness's order
      (recursive, table, rolling rows); all three answers agree. */
  method RunSolutions(s: string, p: string) returns (results: seq<bool>)
    requires WellFormed(p)
    ensures |results| == 3
    ensures results[0] == results[1] == results[2] == IsMatchRecursive(s, p)
  {
    var dp := IsMatchDp(s, p);
    var optimized := IsMatchDpOptimized(s, p);
    results := [IsMatchRecursive(s, p), dp, optimized];
  }

  /** Each strategy passes every test case: its answer equals the expected
      one. */
  method TestSolutions() returns (allPass: bool)
    ensures allPass
  {
    var cases := [
      ("aa", "a", false), ("aa", "a*", true), ("ab", ".*", true),
      ("aab", "c*a*b", true), ("mississippi", "mis*is*p*.", false),
      ("", "a*", true), ("", ".*", true), ("a", "ab*", true),
      ("ab", ".*c", false), ("aaa", "a*a", true)
    ];
    Vectors();
    allPass := true;
    for k := 0 to |cases|
      invariant allPass
    {
      var (s, p, expected) := cases[k];
      var results := RunSolutions(s, p);
      allPass := allPass && results[0] == expected && results[1] == expected && results[2] == expected;
    }
  }
}
