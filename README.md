# statusline: a Dafny model of the status-line core

`statusline.py` prints one line for a terminal status bar. It shows:

- the git branch and its pending changes;
- a usage percentage, drawn as a bar of block glyphs and coloured by severity;
- clickable OSC 8 hyperlinks.

This project models the four pieces of that script that compute something:

- **`format_git_branch`** (`git_status.dfy`, `git_tracking.dfy`).
  - It reads the output of `git status --porcelain -b`.
  - It takes the branch from the `## ` header line.
  - It reads the ahead and behind counts from the header.
  - It counts staged and unstaged change lines.
  - It renders ` · 🌿 <branch> (N staged, N unstaged, N ahead, N behind)`, leaving out the zero counts.
  - `GitStatus.GitInfo` and `GitStatus.GitSegment` specify what the whole output yields. `GitStatus.FormatGitBranch` is the source's loop, proved against them. Its body, one line of output, is `GitStatus.ReadLine`.
  - `GitTracking` describes the header exactly as git writes it, `## <branch>...<upstream> [ahead N, behind M]`. It proves what the parser reads back from that header.
- **`get_progress_bar`** (`progress_bar.dfy`). The bar has `width` cells, and each cell is lit in eighths. `ProgressBar.Bar` describes the bar cell by cell, `GetProgressBar` is the source's construction, and lemmas read the lit eighths back from the glyphs.
- **`get_usage_color`** (`usage_color.dfy`). It picks red, yellow or green using the thresholds 80 and 50.
- **`hyperlink`** (`hyperlink.dfy`). It wraps text in the OSC 8 escape sequences. `ParseHyperlink` is its inverse.

Shared pieces:

- `wrappers.dfy` holds `Option`.
- `strings.dfy` holds the Python string operations the parser uses, each as a function:
  - `startswith`;
  - `in`;
  - `split(sep)[0]` and `split(sep)[1]`;
  - `split()[0]`;
  - `join`.
- `numerals.dfy` holds `int(text)` (as `ParseInt`) and `f"{n}"` (as `Str`).
- `theme.dfy` holds the constants: colours, thresholds, glyphs and OSC 8 delimiters.

## Model

| member | source | states |
|---|---|---|
| GitStatus.FormatGitBranch | statusline.py:87-136 | The returned segment is `GitSegment` of the exit status and output lines. It is empty exactly when git failed, a count is not an integer, or no header line is present. |
| GitStatus.GitInfo | statusline.py:89-122 | The summary of git's output. It is `None` whenever the exit status is non-zero. When accepted, staged and unstaged lie between 0 and the number of lines. |
| GitStatus.GitInfoAccepted | statusline.py:100-122 | When the output is accepted, the branch is the one named by the last `## ` line, and no line made `int()` raise `ValueError`. |
| GitStatus.ReadLine | statusline.py:101-117 | One line of output read into the branch and the four counts. `failed` is set exactly when `int()` raises ValueError on the line. A header sets the branch to `HeaderBranch`. Each counter grows by one exactly when its column test holds. Otherwise the ahead and behind counts take the line's `int()` values when it carries them, and are unchanged when it does not. |
| GitStatus.BranchToken | statusline.py:108 | `split('...')[0].split()[0]` of the text after `## ` holds no whitespace. It is empty exactly when the text before the first `...` is all whitespace, the case where Python raises `IndexError`. |
| GitStatus.HeaderBranch | statusline.py:104-108 | The detached header reports `detached HEAD`. Any other header reports a branch without whitespace. The branch is empty exactly on a header that crashes `split()[0]`. |
| GitStatus.AheadText | statusline.py:110 | The text handed to `int()` for the ahead count is a prefix of what follows the first `[ahead `, and holds no `,` and no `]`. |
| GitStatus.BehindText | statusline.py:112 | The text handed to `int()` for the behind count is a prefix of what follows the first `[behind `, and holds no `]`. |
| GitStatus.ValueErrorCases | statusline.py:109-118 | `RaisesValueError` holds only for a branch header. It never holds when every count text the line offers is a non-empty run of decimal digits. |
| GitStatus.IsStaged | statusline.py:113-114 | A staged line is a change line of at least two characters, never a header. An untracked `??` line is never staged. |
| GitStatus.IsUnstaged | statusline.py:113-116 | An unstaged line is a change line of at least two characters, never a header. Every untracked `??` line is unstaged. |
| GitStatus.CountWhere | statusline.py:113-117 | A `+= 1` counter over the output never exceeds the number of lines. |
| GitStatus.Parts | statusline.py:125-133 | `parts` has at most four entries. When staged is non-zero, `N staged` comes first. When behind is non-zero, `N behind` comes last. |
| GitStatus.Suffix | statusline.py:135 | The suffix is empty exactly when `parts` is. Otherwise it opens with ` (` and the first part, and ends with `)`. |
| GitStatus.GitSegment | statusline.py:87-136 | The text returned for git's result. It is empty if and only if the summary is `None`. Otherwise it starts with ` · 🌿 ` and the branch. |
| GitStatus.BuildSegment | statusline.py:124-136 | The built text is `Render` of the summary: the lead-in, the branch, then the non-zero counts in the order staged, unstaged, ahead, behind. |
| GitStatus.Render | statusline.py:135-136 | The segment always starts with ` · 🌿 ` followed by the branch name. |
| GitStatus.SuffixEmptyIffAllZero | statusline.py:124-135 | The parenthesised suffix is empty if and only if all four counts are zero. `parts` holds exactly one entry per non-zero count. |
| GitStatus.LastWhere | statusline.py:100-112 | The last matching line is found. No later line matches. When none is found, no line matches. |
| GitStatus.CountWhereSnoc | statusline.py:113-117 | One more line raises a count by one exactly when that line qualifies. |
| GitStatus.LastWhereSnoc | statusline.py:100-112 | One more line becomes the last match exactly when it qualifies. |
| GitStatus.BranchOfSnoc | statusline.py:101-108 | A header line overwrites the branch. Any other line leaves it unchanged. |
| GitStatus.AheadOfSnoc | statusline.py:109-110 | A branch header containing `[ahead ` overwrites the ahead count with the `int()` of its text. Other lines leave it unchanged. |
| GitStatus.BehindOfSnoc | statusline.py:111-112 | A branch header containing `[behind ` overwrites the behind count. Other lines leave it unchanged. |
| GitStatus.BranchFoundIffHeader | statusline.py:100-122 | With no header that crashes `split()[0]`, the branch is empty if and only if no `## ` line was seen. |
| GitStatus.ChangeLine | statusline.py:113-117 | A non-header line changes only staged and unstaged. It adds one to staged when column 0 is neither blank nor `?`, and one to unstaged when column 1 is not blank. |
| GitStatus.ChangeLineParts | statusline.py:113-117 | After a non-header line, the branch, ahead, behind and the accept conditions are unchanged. Each counter grows by one exactly when its column test holds. |
| GitStatus.UntrackedIsUnstagedOnly | statusline.py:114-117 | An untracked `??` line adds one to unstaged and nothing to staged. |
| GitStatus.ShortLineIgnored | statusline.py:113 | A line shorter than two characters changes nothing. |
| GitStatus.DetachedHeadOnly | statusline.py:105-106 | A `## HEAD (no branch)` header reports `detached HEAD` with every count zero, whatever follows it, and renders as just that name. |
| GitTracking.HeaderNamesBranch | statusline.py:104-108 | On any header git writes for a git-valid branch name with no Python whitespace, and an upstream without `[`, the parser takes the exact branch name, and `split()[0]` does not crash. |
| GitTracking.BranchCutAtSpace | statusline.py:108 | When the branch name holds a Python whitespace character that git allows, such as U+00A0, and the first such character is not the name's first character, the reported branch is the name cut at that character. |
| GitTracking.BranchLeadingSpace | statusline.py:108 | When the branch name opens with such a character, `split()[0]` skips it and reports the next word of the name. The result is empty, the `IndexError` case, exactly when the name holds nothing but whitespace. |
| GitTracking.HeaderWithoutUpstream | statusline.py:100-122 | The header `## <branch>` of a branch with no upstream, read alone, gives that branch and every count zero. |
| GitTracking.NoWordHeader | statusline.py:104-108 | Any header whose text opens with the word `No` is a branch header that reports the branch `No`. |
| GitTracking.UnbornHeaderAsWritten | statusline.py:100-122 | As written, `## No commits yet on <branch>`, read alone, gives branch `No` and every count zero, whatever the branch is called. |
| GitTracking.BranchTokenFixed | statusline.py:104-108 | The corrected branch token. On every header not opening with `No commits yet on `, it equals the token the source reads. |
| GitTracking.UnbornHeaderFixed | statusline.py:104-108 | With the corrected token, `## No commits yet on <branch>` names that branch, with or without `...<upstream>` after it. |
| GitTracking.HeaderAheadAsWritten | statusline.py:109-110 | The ahead count is found if and only if git wrote one, and `int()` reads back exactly that count. |
| GitTracking.HeaderBehindAsWritten | statusline.py:111-112 | As written, a behind count is found if and only if git wrote a behind count and no ahead count, and then it reads back exactly. |
| GitTracking.HeaderSummaryAsWritten | statusline.py:87-122 | For a single header git writes for a branch name with no Python whitespace, the summary holds the branch and the ahead count. It holds the behind count only when there is no ahead count. |
| GitTracking.BracketOpening | statusline.py:102 | The bracket git writes starts with `ahead ` if and only if there is an ahead count. It starts with `behind ` if and only if there is only a behind count. |
| GitTracking.MarkerInBracket | statusline.py:109-112 | In a line with a single `[`, the marker `[word` occurs if and only if the bracket starts with `word`, and `split(marker)[1]` is the rest of the bracket. |
| GitTracking.NotDetachedMarker | statusline.py:105 | A header for a named branch never starts with `HEAD (no branch)`. |
| GitTracking.AheadCountText | statusline.py:110 | `.split(',')[0].split(']')[0]` applied after `[ahead ` yields exactly the digits of the ahead count. |
| GitTracking.CountBeforeClose | statusline.py:112 | `.split(']')[0]` applied to a count and `]` yields the digits, and `int()` reads them back. |
| GitTracking.ExampleHeaderSummary | statusline.py:87-122 | `## main...origin/main [ahead 2, behind 1]` is summarised as branch `main`, 2 ahead, 0 behind. |
| GitTracking.ExampleHeaderSegment | statusline.py:87-136 | For that header, the segment reads ` · 🌿 main (2 ahead)`. |
| GitTracking.ExampleWithChanges | statusline.py:87-122 | The example header followed by `M  a`, ` M b` and `?? c`, whatever the paths, is summarised as `main`, 1 staged, 2 unstaged, 2 ahead, 0 behind. |
| GitTracking.ThreeChanges | statusline.py:113-117 | A staged change, an unstaged change and an untracked file after any accepted output add 1 staged and 2 unstaged, and change nothing else. |
| GitTracking.ChangeStep | statusline.py:113-117 | One change line after any accepted output adds to staged and unstaged exactly as its two columns say. |
| GitTracking.HeaderBehindFixed | statusline.py:111-112 | The corrected reading searches for `behind ` inside the bracket. It finds a behind count if and only if git wrote one, with or without an ahead count, and reads it back exactly. |
| GitTracking.HeaderSummaryFixed | statusline.py:87-122 | With the corrected reading, a single header git writes for a branch name with no Python whitespace yields the branch and both counts git wrote. |
| GitTracking.ExampleHeaderSummaryFixed | statusline.py:87-122 | With the corrected reading, the example header yields `main`, 2 ahead, 1 behind. |
| GitTracking.OnlyLineFixed | statusline.py:100-112 | With the corrected reading, a single header line yields its branch, its ahead count and its behind count, with no changes. |
| GitTracking.GitInfoFixed | statusline.py:100-122 | The summary with the corrected behind reading. It is `None` on a non-zero exit status. When both summaries are accepted, it differs from `GitInfo` only in the behind count. |
| Numerals.NatStr | statusline.py:127-133 | The decimal text of a count is non-empty, all digits, and has no leading zero. It denotes the count. |
| Numerals.Str | statusline.py:127-133 | `f"{n}"` begins with `-` exactly when `n` is negative. |
| Numerals.ParseIntStr | statusline.py:110-112 | `int()` reads back every integer `f"{n}"` writes. |
| Numerals.ParseInt | statusline.py:110-112 | `int(text)`, or `None` where Python raises `ValueError`. An accepted text is non-empty once the whitespace `int()` strips is gone. The result is negative exactly when that text starts with `-` and the value is not zero. |
| Numerals.IntTrimStart | statusline.py:110-112 | What `int()` drops in front: the result is a suffix that does not open with `int()` whitespace, and everything removed is such whitespace. |
| Numerals.IntTrimEnd | statusline.py:110-112 | What `int()` drops behind: the result is a prefix that does not end with `int()` whitespace, and everything removed is such whitespace. |
| Numerals.ParseIntRejectsSeparator | statusline.py:110-112 | A text opening with U+001C to U+001F is rejected, although `str.isspace` holds for those characters: `int()` strips only ASCII space, tab, line feed, vertical tab, form feed and carriage return among the ASCII characters. |
| Numerals.ParseIntOfNegated | statusline.py:110-112 | A minus sign before a run of digits reads as the negated value. |
| Numerals.ParseIntOfDigits | statusline.py:110-112 | A plain non-empty run of decimal digits reads as the number it denotes. |
| Strings.FirstToken | statusline.py:108 | `split()[0]` returns text without whitespace. It is empty exactly when the input is all whitespace, the case where Python raises `IndexError`. |
| Strings.SplitAtFirst | statusline.py:108-112 | When `sep` does not start anywhere inside `p`, the first match in `p + sep + q` is at the end of `p`. `split(sep)[0]` is then `p`, and the text after the separator is `q`. |
| Strings.SplitHead | statusline.py:108-112 | `s.split(sep)[0]` is a prefix of `s` that holds no `sep`. It is all of `s` when `sep` does not occur. |
| Strings.SplitSecond | statusline.py:110-112 | `s.split(sep)[1]` holds no `sep`, and the first piece, `sep` and it together form a prefix of `s`. |
| Strings.ContainsIffOccurs | statusline.py:109-111 | `sep in s` holds if and only if `sep` occurs at some position of `s`. |
| Strings.StartsWithFront | statusline.py:101-105 | `s.startswith(prefix)` holds if and only if `prefix` occurs at position 0. Then `s` is `prefix` followed by the rest. |
| Strings.AbsentByFirstChar | statusline.py:108-112 | When `s` lacks the first character of `sep`, `sep in s` is false and `s.split(sep)[0]` is `s`. |
| Strings.Join | statusline.py:135 | `sep.join(parts)` is empty for no parts. Otherwise it starts with the first part, and its length is the parts' total length plus one `sep` between each pair. |
| ProgressBar.GetProgressBar | statusline.py:192-207 | The drawn bar is `Bar(progress, total, width)`, and it has exactly `width` cells. |
| ProgressBar.Bar | statusline.py:192-207 | The reference bar, built cell by cell from `CellGlyph` of the lit eighths, has exactly `width` cells. `GetProgressBar` is proved equal to it. |
| ProgressBar.CellGlyph | statusline.py:197-205 | A cell is empty exactly when the fill stops at or before it. It is a full block exactly when the fill covers all of it. |
| ProgressBar.FilledEighths | statusline.py:193-195 | The number of lit eighths lies between 0 and `8 * width`. |
| ProgressBar.Repeat | statusline.py:201-205 | `c * n` has `max(n, 0)` copies of `c` and nothing else. |
| ProgressBar.CellsShowFill | statusline.py:197-205 | Reading the glyphs back gives exactly the number of lit eighths asked for, capped at the bar's capacity. |
| ProgressBar.BarShowsFill | statusline.py:192-207 | The glyphs of the drawn bar add up to `int(progress / total * width * 8)` eighths. |
| ProgressBar.AtMostOnePartial | statusline.py:197-204 | Only one cell can be partial: the cell at `filled // 8`, when `filled % 8` is non-zero. It shows `BLOCKS[remainder - 1]`. |
| ProgressBar.BarAtZero | statusline.py:192-207 | At zero progress the bar is all empty cells. |
| ProgressBar.BarAtTotal | statusline.py:192-207 | At full progress the bar is all full blocks. |
| ProgressBar.BarMonotone | statusline.py:192-207 | More progress never dims a cell. |
| ProgressBar.CellLevel | statusline.py:197-205 | Each cell shows exactly the eighths of the fill that fall inside it. |
| UsageColor.GetUsageColor | statusline.py:226-231 | The colour is red if and only if the percentage is at least 80. It is yellow if and only if the percentage is in [50, 80). It is green if and only if the percentage is below 50. |
| UsageColor.SeverityMonotone | statusline.py:226-231 | A larger percentage is never shown in a milder colour. |
| Hyperlinks.Hyperlink | statusline.py:71-73 | The link starts with the OSC 8 opener, then the URL, then BEL. Its length is the sum of its parts. |
| Hyperlinks.HyperlinkRoundTrip | statusline.py:71-73 | A terminal parsing the link gets back the same URL and text, provided the URL holds no BEL. |

## Left out

- Running git is not modelled: the `subprocess.run` call, its two-second timeout and `OSError`. The exit status and the lines of standard output are parameters. A timeout or an `OSError` would give "", the same as a non-zero exit status. The bytes git writes are decoded with the locale's encoding (`text=True`), and git accepts branch names that are not valid in that encoding. Such a name raises `UnicodeDecodeError`, a kind of `ValueError`, so the source gives "" there too. The model receives the lines already decoded.
- `splitlines` is not modelled. The output arrives already split into lines, so `\r`, form feeds and the other Python line breaks are not distinguished.
- A branch header whose text up to the first `...` (or the whole remainder, when there is no `...`) is empty or all whitespace makes `split()[0]` raise `IndexError`. Examples are `##  ...origin/main` and the bare line `## `. The source does not catch the error, so the script dies. That crash is not modelled as an outcome.
- GitStatus.FormatGitBranch: requires that no line in successful output crashes `split()[0]`. The source crashes only when it reaches such a line. If an earlier line raises `ValueError`, the source returns "" first.
- ProgressBar.FilledEighths: uses exact real arithmetic and `Floor`. Python uses IEEE doubles, whose rounding can differ by one eighth at exact boundaries.
- The bar assumes `0 <= progress <= total` and `total > 0`. For progress above the total, `int()` truncation of negatives, and `total == 0`, the source draws longer bars, or raises `ZeroDivisionError`. These cases are not modelled.
- `int()` accepts only ASCII digits here. Python also accepts other Unicode decimal digits.
- Numerals.ParseInt: accepts any number of digits. CPython 3.10.7 and later raise `ValueError` for a decimal string longer than the interpreter's digit limit. That limit is 4300 by default and can be changed with `sys.set_int_max_str_digits` or `PYTHONINTMAXSTRDIGITS`. On such a count the source returns "", while `GitInfo` accepts the count. The limit depends on the interpreter's version and settings, so it is left out.
- The default arguments `total=100` and `width=10` are not separate members. Callers pass them explicitly.
- Not part of this model: `supports_osc8` and `vscode_folder_link`, because they depend on environment variables and paths. Also `format_context_usage` and `format_usage`, whose float formatting (`:.0f`) is not modelled. Also `get_access_token`, `fetch_usage` (credentials, the keychain, the HTTPS request) and `main` (JSON on standard input, printing).
- GitTracking: the header lemmas cover the `## <branch>...<upstream>` form, with an optional `[ahead N]`, `[behind M]` or `[ahead N, behind M]`, the `## <branch>` form without an upstream, and the `## No commits yet on <branch>` form. Other headers, such as `## HEAD (no branch)` followed by tracking text, go through the same `GitInfo` parser, and only `DetachedHeadOnly` states what they yield.
- GitTracking.HeaderNamesBranch: holds only for branch names with no Python whitespace (`IsRefName`). git also accepts names holding U+0085, U+00A0, U+1680, U+2000 to U+200A, U+2028, U+2029, U+202F, U+205F or U+3000, because it refuses only ASCII control characters, the space and a few ASCII marks. `split()[0]` cuts such a name at the first of those characters, so the source reports only the front of it, when that character is not the name's first. `BranchCutAtSpace` states this cut. When the name opens with such a character, the source reports the next word of the name, or crashes with `IndexError` when the name holds nothing else. `BranchLeadingSpace` states this case. The same restriction applies to `HeaderAheadAsWritten`, `HeaderBehindAsWritten`, `HeaderSummaryAsWritten`, `HeaderBehindFixed` and `HeaderSummaryFixed`.

## Findings

| source | as written | input that shows it | evidently intended | confidence | as-written member | corrected member |
|---|---|---|---|---|---|---|
| statusline.py:104-108 | Takes the first word after `## ` as the branch. Before the first commit git writes `## No commits yet on <branch>`, whose first word is `No`. | `## No commits yet on main` is summarised with branch `No` | branch `main` | not executed | GitTracking.UnbornHeaderAsWritten, GitTracking.NoWordHeader | GitTracking.BranchTokenFixed, GitTracking.UnbornHeaderFixed |
| statusline.py:111-112 | Searches the line for `[behind `. When git reports both counts it writes `[ahead N, behind M]`, so the behind count sits after `, ` and the search never finds it. | `## main...origin/main [ahead 2, behind 1]` gives main, 2 ahead, 0 behind, rendered ` · 🌿 main (2 ahead)` | main, 2 ahead, 1 behind, rendered ` · 🌿 main (2 ahead, 1 behind)` | not executed | GitTracking.HeaderBehindAsWritten, GitTracking.ExampleHeaderSummary | GitTracking.HeaderBehindFixed, GitTracking.HeaderSummaryFixed |

`GitStatus.GitInfo` and `GitStatus.FormatGitBranch` follow the source as written. `GitTracking.GitInfoFixed` is the same summary with the corrected behind reading, `HasBehindFixed` and `BehindTextFixed`: it searches for `behind ` inside the text after the first `[`. `HeaderSummaryFixed` proves that this summary returns both counts git wrote.

`GitTracking.BranchTokenFixed` reads the word after `No commits yet on ` as the branch, and otherwise reads the header as the source does. `UnbornHeaderFixed` proves that it names the unborn branch.
