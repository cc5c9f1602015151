# Regular-expression matching with `.` and `*`, three ways

This project models full-string matching of a text against a pattern where
`.` matches any single character and `*` matches zero or more copies of the
element just before it (LeetCode problem 10). The original program computes
this in three ways that are meant to give the same answer:

- `isMatch_recursive`: a recursive `match(i, j)` over suffixes of the text
  and the pattern. It is the reference semantics. Here it is the function
  `RegexRecursive.Match`, and `IsMatchRecursive` applies it at `(0, 0)`.
- `isMatch_dp`: an `(m+1) x (n+1)` boolean table. Cell `(i, j)` says whether
  the prefix `s[0:i]` is matched by the prefix `p[0:j]`. Here it is the
  method `RegexTable.FillTable`, which fills an `array2<bool>` in place with
  the same loops, and `RegexTable.IsMatchDp`, which reads the corner cell.
- `isMatch_dp_optimized`: the same recurrence in two rolling rows, `prev`
  and `curr`, that swap after each text position. Here it is the method
  `RegexRolling.IsMatchDpOptimized` over two `array<bool>`. The swap is a
  swap of references, as in the source.

The table recurrence is also written as a function on prefix lengths,
`RegexTable.Cell`. Both table methods are proved to compute `Cell` cell by
cell. `CellMeaning` proves that `Cell(s, p, i, j)` equals the recursive
matcher on `s[..i]` and `p[..j]`. The bridge is a pair of lemmas,
`PeelLiteral` and `PeelStar`. They show that the suffix-wise recursion also
obeys the "peel the last token" recurrence that the table uses.

Both table matchers require a well-formed pattern (`WellFormed`). That means
no leading `*` and no `**`. Without it the Python code reads `p[j-2]` and
`dp[i][j-2]` at `j = 1`. Python's negative indexing then wraps to the end of
the list, and the recursive matcher would treat the leading `*` as a
literal. The recursive matcher itself needs no precondition.

The program does not check patterns for `*` misuse. The model excludes
malformed patterns with the precondition `WellFormed` instead of reporting an
error.

The matchers allocate their own tables (`FillTable` ensures `fresh(dp)`) and
have no `modifies` clause, so calling them changes no existing state. Calling one twice on the same inputs
gives the same answer.

Files: `recursive.dfy` (module `RegexRecursive`), `table.dfy`
(`RegexTable`), `rolling.dfy` (`RegexRolling`), `cases.dfy` (`RegexCases`,
the test vectors).

## Model

| member | source | states |
|---|---|---|
| RegexRecursive.Match | regex_matching/regex_matching.py:20-37 | the inner `match(i, j)`, branch by branch: at the end of the pattern the text must be at its end too; `firstMatch` needs a text character accepted by `p[j]`; before a `*` it tries zero copies, then one more copy; otherwise it steps both positions |
| RegexRecursive.IsMatchRecursive | regex_matching/regex_matching.py:13-39 | the reference matcher `Match(s, p, 0, 0)`; with the empty pattern it accepts exactly the empty text |
| RegexRecursive.PatternExhausted | regex_matching/regex_matching.py:21-23 | when the pattern position reaches the end, the match holds exactly when the text position is at the end too; `""` matches `""` |
| RegexRecursive.LiteralSuffix | regex_matching/regex_matching.py:25-37 | a star-free pattern suffix matches a text suffix iff they have the same length and every pattern character accepts the text character at its position |
| RegexRecursive.LiteralPattern | regex_matching/regex_matching.py:26-37 | a pattern with no `*` matches `s` iff `s` and `p` have the same length and each `p[k]` is `s[k]` or `.` |
| RegexRecursive.StarSuffix | regex_matching/regex_matching.py:29-34 | `x*` matches a text suffix iff every character of that suffix is accepted by `x`, the empty suffix included |
| RegexRecursive.StarPattern | regex_matching/regex_matching.py:30-34 | `x*` matches exactly the texts whose characters are all accepted by `x` (so `"a*"` matches `""` and `"aa"`, and `".*"` matches every text) |
| RegexRecursive.PeelLiteral | regex_matching/regex_matching.py:35-37 | for a pattern ending in a single token, the recursive match holds iff the last text character is accepted by that token and the text without it matches the pattern without it |
| RegexRecursive.PeelStar | regex_matching/regex_matching.py:29-34 | for a pattern ending in `x*`, the recursive match holds iff the pattern without `x*` matches, or `x` accepts the last text character and the text without it matches the whole pattern |
| RegexTable.Cell | regex_matching/regex_matching.py:54-75 | the table's cell recurrence as a function of the prefix lengths: column 0 holds only in row 0; a column ending in `*` holds when the starred token is skipped, or when its operand accepts the last text character and the cell above holds; any other column needs the last characters to agree and the diagonal cell to hold |
| RegexTable.CellMeaning | regex_matching/regex_matching.py:51-75 | the table recurrence at `(i, j)` equals the recursive matcher on `s[0:i]` and `p[0:j]` |
| RegexTable.CellAgrees | regex_matching/regex_matching.py:77 | the corner cell `(m, n)` equals the recursive matcher on the whole text and pattern |
| RegexTable.EmptyTextRow | regex_matching/regex_matching.py:54-60 | row 0: cell `(0, j)` holds iff `p[0:j]` is a run of operand-`*` pairs such as `a*b*c*`; so cell `(0, 1)` is false |
| RegexTable.EmptyText | regex_matching/regex_matching.py:57-60 | the empty text is matched exactly by the patterns made of operand-`*` pairs |
| RegexTable.FillTable | regex_matching/regex_matching.py:49-75 | the filled table has `m+1` rows and `n+1` columns, and every cell `(a, b)` equals the recurrence and equals the recursive matcher on `s[0:a]` and `p[0:b]` |
| RegexTable.IsMatchDp | regex_matching/regex_matching.py:42-77 | the table matcher returns the same answer as the recursive matcher for every well-formed pattern |
| RegexRolling.IsMatchDpOptimized | regex_matching/regex_matching.py:80-117 | the rolling-row matcher returns the same answer as the recursive matcher for every well-formed pattern; its loop invariant keeps `prev` equal to the last completed table row |
| RegexRecursive.DoubleStarDiverges | regex_matching/regex_matching.py:26-37 | the pattern `"a**"` is not well-formed, and the recursive matcher rejects `"a"` against it, because it reads the second `*` as a literal |
| RegexCases.Vectors | regex_matching/regex_matching.py:122-134 | the ten test cases have the expected answers, e.g. `("aa","a")` false, `("aab","c*a*b")` true, `("mississippi","mis*is*p*.")` false |
| RegexCases.RunSolutions | regex_matching/regex_matching.py:136-153 | running the three strategies on one well-formed pair gives three equal answers, all equal to the reference matcher |
| RegexCases.TestSolutions | regex_matching/regex_matching.py:120-155 | every strategy gives the expected answer on every test case |

## Left out

- Printing in `test_solutions` (lines 142-155): it is console output. Only its test vectors and the pass/fail comparison are modelled.
- `explain_step_by_step` (lines 158-200): it prints a trace of the same recursion as `match` and is a debugging aid.
- The `__main__` demo driver (lines 203-212).
- Malformed patterns in the table matchers: they are excluded by `WellFormed`, and their Python behaviour is not modelled. A leading `*` makes the table code read `p[-1]` and `dp[i][-1]` at `j = 1` (lines 67, 70, 105-106), which Python wraps to the last element. With `**` no index wraps, but the table treats the second `*` as repeating a literal `*` while the recursive matcher reads it as a literal, so the strategies diverge: for `s = "a"`, `p = "a**"` the table gives true and the recursive matcher false (`DoubleStarDiverges`).
- The time and space complexity claims in the docstrings (lines 17-18, 46-47, 84-85): they are not functional properties.
- The Python `try`/`except` around each strategy in the harness (lines 150-155): the exceptions it can catch come from the Python runtime, not from the matching logic, and are not modelled.
- RegexRecursive.IsMatchRecursive: the model is total for every length, but the program nests one `match` call per step (lines 33-37), so past Python's default recursion limit (about 1000 frames, e.g. `s = p = "a" * 1000`) `isMatch_recursive` raises `RecursionError` instead of answering. The agreement of the three strategies holds in the program only below that depth.
