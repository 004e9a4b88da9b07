/** The git segment of the status line: what `git status --porcelain -b`
    says about the working tree, summarised as branch, staged and unstaged
    changes, and commits ahead of and behind the upstream. */
module GitStatus {
  import opened Wrappers
  import opened Strings
  import opened Numerals

  const HeaderPrefix: string := "## "
  const DetachedMarker: string := "HEAD (no branch)"
  const DetachedName: string := "detached HEAD"
  const UpstreamSep: string := "..."
  const AheadMarker: string := "[ahead "
  const BehindMarker: string := "[behind "
  /** " · 🌿 ", the lead-in before the branch name */
  const SegmentLead: string := " \U{B7} \U{1F33F} "

  /** What the porcelain output says: the branch (or "detached HEAD") and
      the four counts. */
  datatype GitSummary = GitSummary(branch: string, staged: int, unstaged: int, ahead: int, behind: int)

  // ----- one line of porcelain output

  /** The branch header line, `## <branch>...<upstream> [ahead N, behind M]`. */
  predicate IsHeader(line: string) {
    StartsWith(line, HeaderPrefix)
  }

  /** The header git writes when HEAD is detached. */
  predicate IsDetached(line: string) {
    IsHeader(line) && StartsWith(line[|HeaderPrefix|..], DetachedMarker)
  }

  /** A header that names a branch. */
  predicate IsBranchHeader(line: string) {
    IsHeader(line) && !IsDetached(line)
  }

  /** `branch_part.split('...')[0].split()[0]`, "" where that raises IndexError:
      a word without whitespace, empty exactly when the text before the
      first `...` is all whitespace. */
  function BranchToken(line: string): (token: string)
    requires IsHeader(line)
    ensures NoSpace(token)
    ensures var head := SplitHead(line[|HeaderPrefix|..], UpstreamSep);
      token == "" <==> forall i :: 0 <= i < |head| ==> IsSpace(head[i])
  {
    FirstToken(SplitHead(line[|HeaderPrefix|..], UpstreamSep))
  }

  /** The branch a header line reports: "detached HEAD" for the detached
      header, otherwise the branch token, which is empty only on a header
      that crashes the source. */
  function HeaderBranch(line: string): (branch: string)
    requires IsHeader(line)
    ensures IsDetached(line) ==> branch == DetachedName
    ensures !IsDetached(line) ==> NoSpace(branch)
    ensures branch == "" <==> Crashes(line)
  {
    if IsDetached(line) then DetachedName else BranchToken(line)
  }

  /** A branch header with nothing but whitespace before `...`: the source's
      `split()[0]` raises IndexError on it, which nothing catches. */
  predicate Crashes(line: string) {
    IsBranchHeader(line) && BranchToken(line) == ""
  }

  /** A branch header carrying an ahead count. */
  predicate HasAhead(line: string) {
    IsBranchHeader(line) && Contains(line, AheadMarker)
  }

  /** A branch header carrying a `[behind ` count. */
  predicate HasBehind(line: string) {
    IsBranchHeader(line) && Contains(line, BehindMarker)
  }

  /** `line.split('[ahead ')[1].split(',')[0].split(']')[0]`: the front of
      the text after the first `[ahead `, up to any `,` or `]`. */
  function AheadText(line: string): (text: string)
    requires Contains(line, AheadMarker)
    ensures StartsWith(SplitSecond(line, AheadMarker), text)
    ensures ',' !in text && ']' !in text
  {
    var afterMarker := SplitSecond(line, AheadMarker);
    var beforeComma := SplitHead(afterMarker, ",");
    var text := SplitHead(beforeComma, "]");
    CharAbsent(beforeComma, ',');
    CharAbsent(text, ']');
    text
  }

  /** `line.split('[behind ')[1].split(']')[0]`: the front of the text after
      the first `[behind `, up to any `]`. */
  function BehindText(line: string): (text: string)
    requires Contains(line, BehindMarker)
    ensures StartsWith(SplitSecond(line, BehindMarker), text)
    ensures ']' !in text
  {
    var text := SplitHead(SplitSecond(line, BehindMarker), "]");
    CharAbsent(text, ']');
    text
  }

  /** A branch header whose ahead or behind text is not an integer: `int()`
      raises ValueError, which the source turns into "no git info". */
  predicate RaisesValueError(line: string) {
    (HasAhead(line) && ParseInt(AheadText(line)).None?)
    || (HasBehind(line) && ParseInt(BehindText(line)).None?)
  }

  /** Every count text the source reads from this line is a plain run of
      decimal digits. */
  predicate DigitCounts(line: string) {
    (HasAhead(line) ==> AheadText(line) != "" && AllDigits(AheadText(line)))
    && (HasBehind(line) ==> BehindText(line) != "" && AllDigits(BehindText(line)))
  }

  /** Only a branch header can make `int()` raise, and never one whose
      counts are plain runs of digits. */
  lemma ValueErrorCases(line: string)
    ensures RaisesValueError(line) ==> IsBranchHeader(line)
    ensures DigitCounts(line) ==> !RaisesValueError(line)
  {
    if HasAhead(line) && AheadText(line) != "" && AllDigits(AheadText(line)) {
      ParseIntOfDigits(AheadText(line));
    }
    if HasBehind(line) && BehindText(line) != "" && AllDigits(BehindText(line)) {
      ParseIntOfDigits(BehindText(line));
    }
  }

  /** A change line whose index column (the first) shows a change: neither
      blank nor `?`. Headers and untracked (`??`) lines are never staged. */
  predicate IsStaged(line: string)
    ensures IsStaged(line) ==> |line| >= 2 && !IsHeader(line)
    ensures StartsWith(line, "??") ==> !IsStaged(line)
  {
    !IsHeader(line) && |line| >= 2 && line[0] != ' ' && line[0] != '?'
  }

  /** A change line whose worktree column (the second) is not blank;
      untracked files (`??`) are among them. */
  predicate IsUnstaged(line: string)
    ensures IsUnstaged(line) ==> |line| >= 2 && !IsHeader(line)
    ensures StartsWith(line, "??") ==> IsUnstaged(line)
  {
    assert StartsWith(line, "??") ==> line[..2][1] == '?';
    !IsHeader(line) && |line| >= 2 && line[1] != ' '
  }

  // ----- the whole output

  /** How many lines satisfy `p`. */
  function CountWhere(lines: seq<string>, p: string -> bool): (n: nat)
    ensures n <= |lines|
  {
    if lines == [] then 0
    else CountWhere(lines[..|lines| - 1], p) + (if p(lines[|lines| - 1]) then 1 else 0)
  }

  /** The index of the last line satisfying `p`, if any. */
  function LastWhere(lines: seq<string>, p: string -> bool): (r: Option<nat>)
    ensures r.Some? ==> r.value < |lines| && p(lines[r.value])
    ensures r.Some? ==> forall j :: r.value < j < |lines| ==> !p(lines[j])
    ensures r.None? ==> forall j :: 0 <= j < |lines| ==> !p(lines[j])
  {
    if lines == [] then None
    else if p(lines[|lines| - 1]) then Some(|lines| - 1)
    else LastWhere(lines[..|lines| - 1], p)
  }

  /** Some line satisfies `p`. */
  predicate AnyWhere(lines: seq<string>, p: string -> bool) {
    LastWhere(lines, p).Some?
  }

  /** The branch of the last header line; later headers override earlier ones. */
  function BranchOf(lines: seq<string>): string {
    match LastWhere(lines, IsHeader)
    case None => ""
    case Some(k) => HeaderBranch(lines[k])
  }

  /** The ahead count of the last branch header carrying one, else 0. */
  function AheadOf(lines: seq<string>): int {
    match LastWhere(lines, HasAhead)
    case None => 0
    case Some(k) => ParseInt(AheadText(lines[k])).GetOr(0)
  }

  /** The behind count of the last branch header carrying `[behind `, else 0. */
  function BehindOf(lines: seq<string>): int {
    match LastWhere(lines, HasBehind)
    case None => 0
    case Some(k) => ParseInt(BehindText(lines[k])).GetOr(0)
  }

  /** What git reported, or `None` for "no git info": git failed, a count
      was not an integer, or no header named a branch. */
  function GitInfo(returncode: int, lines: seq<string>): (r: Option<GitSummary>)
    ensures returncode != 0 ==> r.None?
    ensures r.Some? ==> 0 <= r.value.staged <= |lines| && 0 <= r.value.unstaged <= |lines|
  {
    if returncode != 0 || AnyWhere(lines, RaisesValueError) || !AnyWhere(lines, IsHeader)
    then None
    else Some(GitSummary(BranchOf(lines), CountWhere(lines, IsStaged), CountWhere(lines, IsUnstaged),
                         AheadOf(lines), BehindOf(lines)))
  }

  /** When git's output is accepted, the branch is the one the last header
      line names, and no line made `int()` fail. */
  lemma GitInfoAccepted(returncode: int, lines: seq<string>)
    requires GitInfo(returncode, lines).Some?
    ensures exists k :: (0 <= k < |lines| && IsHeader(lines[k])
      && (forall j :: k < j < |lines| ==> !IsHeader(lines[j]))
      && GitInfo(returncode, lines).value.branch == HeaderBranch(lines[k]))
    ensures forall k :: 0 <= k < |lines| ==> !RaisesValueError(lines[k])
  {
    var k := LastWhere(lines, IsHeader).value;
    assert IsHeader(lines[k]);
  }

  /** One more line adds one to a count exactly when it qualifies. */
  lemma CountWhereSnoc(lines: seq<string>, line: string, p: string -> bool)
    ensures CountWhere(lines + [line], p) == CountWhere(lines, p) + (if p(line) then 1 else 0)
  {
    assert (lines + [line])[..|lines|] == lines;
  }

  /** One more line becomes the last match exactly when it qualifies. */
  lemma LastWhereSnoc(lines: seq<string>, line: string, p: string -> bool)
    ensures LastWhere(lines + [line], p) == if p(line) then Some(|lines|) else LastWhere(lines, p)
  {
    assert (lines + [line])[..|lines|] == lines;
  }

  /** A header line sets the branch; any other line leaves it alone. */
  lemma BranchOfSnoc(lines: seq<string>, line: string)
    ensures BranchOf(lines + [line]) == if IsHeader(line) then HeaderBranch(line) else BranchOf(lines)
  {
    LastWhereSnoc(lines, line, IsHeader);
  }

  /** A header with an ahead count sets it; any other line leaves it alone. */
  lemma AheadOfSnoc(lines: seq<string>, line: string)
    ensures AheadOf(lines + [line]) ==
      if HasAhead(line) then ParseInt(AheadText(line)).GetOr(0) else AheadOf(lines)
  {
    LastWhereSnoc(lines, line, HasAhead);
  }

  /** A header with a `[behind ` count sets it; any other line leaves it alone. */
  lemma BehindOfSnoc(lines: seq<string>, line: string)
    ensures BehindOf(lines + [line]) ==
      if HasBehind(line) then ParseInt(BehindText(line)).GetOr(0) else BehindOf(lines)
  {
    LastWhereSnoc(lines, line, HasBehind);
  }

  /** With no crashing header, a branch is found exactly when some header
      line is present. */
  lemma BranchFoundIffHeader(lines: seq<string>)
    requires forall i :: 0 <= i < |lines| ==> !Crashes(lines[i])
    ensures BranchOf(lines) == "" <==> !AnyWhere(lines, IsHeader)
  {
    match LastWhere(lines, IsHeader)
    case None =>
    case Some(k) =>
      assert !Crashes(lines[k]);
  }

  // ----- rendering

  /** `"{n} {label}"`, or nothing when `n` is zero. */
  function Labelled(n: int, name: string): seq<string> {
    if n == 0 then [] else [Str(n) + " " + name]
  }

  /** The non-zero counts, in the fixed order staged, unstaged, ahead, behind. */
  function Parts(g: GitSummary): (parts: seq<string>)
    ensures |parts| <= 4
    ensures g.staged != 0 ==> |parts| > 0 && parts[0] == Str(g.staged) + " staged"
    ensures g.behind != 0 ==> |parts| > 0 && parts[|parts| - 1] == Str(g.behind) + " behind"
  {
    Labelled(g.staged, "staged") + Labelled(g.unstaged, "unstaged")
    + Labelled(g.ahead, "ahead") + Labelled(g.behind, "behind")
  }

  /** ` (part, part, ...)`, or "" when every count is zero. */
  function Suffix(g: GitSummary): (suffix: string)
    ensures suffix == "" <==> Parts(g) == []
    ensures suffix != "" ==> StartsWith(suffix, " (" + Parts(g)[0]) && suffix[|suffix| - 1] == ')'
  {
    if Parts(g) == [] then ""
    else
      var joined := Join(Parts(g), ", ");
      assert (" (" + joined + ")")[..|" (" + Parts(g)[0]|] == " (" + joined[..|Parts(g)[0]|];
      " (" + joined + ")"
  }

  /** ` · 🌿 <branch><suffix>` */
  function Render(g: GitSummary): (segment: string)
    ensures StartsWith(segment, SegmentLead + g.branch)
  {
    assert (SegmentLead + g.branch + Suffix(g))[..|SegmentLead + g.branch|] == SegmentLead + g.branch;
    SegmentLead + g.branch + Suffix(g)
  }

  /** The text `format_git_branch` returns for this git result. */
  function GitSegment(returncode: int, lines: seq<string>): (segment: string)
    ensures segment == "" <==> GitInfo(returncode, lines).None?
    ensures GitInfo(returncode, lines).Some? ==>
      StartsWith(segment, SegmentLead + GitInfo(returncode, lines).value.branch)
  {
    match GitInfo(returncode, lines)
    case None => ""
    case Some(g) => Render(g)
  }

  /** `format_git_branch` after its `git status --porcelain -b` call: the
      exit status and the lines of standard output come in as arguments. */
  method FormatGitBranch(returncode: int, stdoutLines: seq<string>) returns (segment: string)
    requires returncode == 0 ==> forall i :: 0 <= i < |stdoutLines| ==> !Crashes(stdoutLines[i])
    ensures segment == GitSegment(returncode, stdoutLines)
    ensures segment == "" <==> GitInfo(returncode, stdoutLines).None?
  {
    var staged, unstaged, ahead, behind := 0, 0, 0, 0;
    var branch := "";

    if returncode != 0 {
      return "";
    }

    for i := 0 to |stdoutLines|
      invariant !AnyWhere(stdoutLines[..i], RaisesValueError)
      invariant branch == BranchOf(stdoutLines[..i])
      invariant staged == CountWhere(stdoutLines[..i], IsStaged)
      invariant unstaged == CountWhere(stdoutLines[..i], IsUnstaged)
      invariant ahead == AheadOf(stdoutLines[..i])
      invariant behind == BehindOf(stdoutLines[..i])
    {
      var line := stdoutLines[i];
      var failed;
      failed, branch, staged, unstaged, ahead, behind := ReadLine(line, branch, staged, unstaged, ahead, behind);
      if failed {
        assert LastWhere(stdoutLines, RaisesValueError).Some?;
        return "";
      }
      assert stdoutLines[..i + 1] == stdoutLines[..i] + [line];
      LastWhereSnoc(stdoutLines[..i], line, RaisesValueError);
      BranchOfSnoc(stdoutLines[..i], line);
      AheadOfSnoc(stdoutLines[..i], line);
      BehindOfSnoc(stdoutLines[..i], line);
      CountWhereSnoc(stdoutLines[..i], line, IsStaged);
      CountWhereSnoc(stdoutLines[..i], line, IsUnstaged);
    }
    assert stdoutLines[..|stdoutLines|] == stdoutLines;
    BranchFoundIffHeader(stdoutLines);

    if branch == "" {
      return "";
    }

    segment := BuildSegment(GitSummary(branch, staged, unstaged, ahead, behind));
  }

  /** The body of `format_git_branch`'s loop: one line of porcelain output
      read into the branch and the four counts. `failed` is set where
      `int()` raises ValueError, which the source turns into "". */
  method ReadLine(line: string, branch: string, staged: int, unstaged: int, ahead: int, behind: int)
    returns (failed: bool, branch': string, staged': int, unstaged': int, ahead': int, behind': int)
    requires !Crashes(line)
    ensures failed <==> RaisesValueError(line)
    ensures branch' == if IsHeader(line) then HeaderBranch(line) else branch
    ensures staged' == staged + (if IsStaged(line) then 1 else 0)
    ensures unstaged' == unstaged + (if IsUnstaged(line) then 1 else 0)
    ensures !failed ==> ahead' == if HasAhead(line) then ParseInt(AheadText(line)).GetOr(0) else ahead
    ensures !failed ==> behind' == if HasBehind(line) then ParseInt(BehindText(line)).GetOr(0) else behind
  {
    failed, branch', staged', unstaged', ahead', behind' := false, branch, staged, unstaged, ahead, behind;
    if StartsWith(line, HeaderPrefix) {
      var branchPart := line[|HeaderPrefix|..];
      if StartsWith(branchPart, DetachedMarker) {
        branch' := DetachedName;
      } else {
        branch' := FirstToken(SplitHead(branchPart, UpstreamSep));
        if Contains(line, AheadMarker) {
          var n := ParseInt(AheadText(line));
          if n.None? {
            return true, branch', staged', unstaged', ahead', behind';
          }
          ahead' := n.value;
        }
        if Contains(line, BehindMarker) {
          var n := ParseInt(BehindText(line));
          if n.None? {
            return true, branch', staged', unstaged', ahead', behind';
          }
          behind' := n.value;
        }
      }
    } else if |line| >= 2 {
      if line[0] != ' ' && line[0] != '?' {
        staged' := staged' + 1;
      }
      if line[1] != ' ' {
        unstaged' := unstaged' + 1;
      }
    }
  }

  /** The tail of `format_git_branch`: the non-zero counts collected into
      `parts`, joined into the suffix, and put after the branch name. */
  method BuildSegment(summary: GitSummary) returns (segment: string)
    ensures segment == Render(summary)
  {
    var parts := [];
    if summary.staged != 0 {
      parts := parts + [Str(summary.staged) + " staged"];
      assert Str(summary.staged) + " staged" == Str(summary.staged) + " " + "staged";
    }
    ghost var upTo := Labelled(summary.staged, "staged");
    assert parts == upTo;
    if summary.unstaged != 0 {
      parts := parts + [Str(summary.unstaged) + " unstaged"];
      assert Str(summary.unstaged) + " unstaged" == Str(summary.unstaged) + " " + "unstaged";
    }
    upTo := upTo + Labelled(summary.unstaged, "unstaged");
    assert parts == upTo;
    if summary.ahead != 0 {
      parts := parts + [Str(summary.ahead) + " ahead"];
      assert Str(summary.ahead) + " ahead" == Str(summary.ahead) + " " + "ahead";
    }
    upTo := upTo + Labelled(summary.ahead, "ahead");
    assert parts == upTo;
    if summary.behind != 0 {
      parts := parts + [Str(summary.behind) + " behind"];
      assert Str(summary.behind) + " behind" == Str(summary.behind) + " " + "behind";
    }
    upTo := upTo + Labelled(summary.behind, "behind");
    assert parts == Parts(summary);
    var suffix := if parts != [] then " (" + Join(parts, ", ") + ")" else "";
    segment := SegmentLead + summary.branch + suffix;
  }

  // ----- properties

  /** The suffix is empty exactly when all four counts are zero; otherwise
      it is the parenthesised list of the non-zero ones. */
  lemma SuffixEmptyIffAllZero(g: GitSummary)
    ensures Suffix(g) == "" <==> g.staged == 0 && g.unstaged == 0 && g.ahead == 0 && g.behind == 0
    ensures |Parts(g)| == (if g.staged != 0 then 1 else 0) + (if g.unstaged != 0 then 1 else 0)
                          + (if g.ahead != 0 then 1 else 0) + (if g.behind != 0 then 1 else 0)
  {
  }

  /** A change line leaves branch, ahead and behind alone and adds one to
      staged and to unstaged as its two status columns say. */
  lemma ChangeLine(returncode: int, lines: seq<string>, line: string)
    requires !IsHeader(line)
    ensures GitInfo(returncode, lines + [line]) ==
      match GitInfo(returncode, lines)
      case None => None
      case Some(g) => Some(g.(staged := g.staged + (if IsStaged(line) then 1 else 0),
                              unstaged := g.unstaged + (if IsUnstaged(line) then 1 else 0)))
  {
    ChangeLineParts(lines, line);
  }

  /** The pieces of `GitInfo` after a non-header line. */
  lemma ChangeLineParts(lines: seq<string>, line: string)
    requires !IsHeader(line)
    ensures AnyWhere(lines + [line], RaisesValueError) == AnyWhere(lines, RaisesValueError)
    ensures AnyWhere(lines + [line], IsHeader) == AnyWhere(lines, IsHeader)
    ensures BranchOf(lines + [line]) == BranchOf(lines)
    ensures AheadOf(lines + [line]) == AheadOf(lines)
    ensures BehindOf(lines + [line]) == BehindOf(lines)
    ensures CountWhere(lines + [line], IsStaged) == CountWhere(lines, IsStaged) + (if IsStaged(line) then 1 else 0)
    ensures CountWhere(lines + [line], IsUnstaged) == CountWhere(lines, IsUnstaged) + (if IsUnstaged(line) then 1 else 0)
  {
    assert !RaisesValueError(line);
    LastWhereSnoc(lines, line, RaisesValueError);
    LastWhereSnoc(lines, line, IsHeader);
    BranchOfSnoc(lines, line);
    AheadOfSnoc(lines, line);
    BehindOfSnoc(lines, line);
    CountWhereSnoc(lines, line, IsStaged);
    CountWhereSnoc(lines, line, IsUnstaged);
  }

  /** An untracked file (`??`) counts as unstaged only. */
  lemma UntrackedIsUnstagedOnly(returncode: int, lines: seq<string>, path: string)
    ensures GitInfo(returncode, lines + ["??" + path]) ==
      match GitInfo(returncode, lines)
      case None => None
      case Some(g) => Some(g.(unstaged := g.unstaged + 1))
  {
    var line := "??" + path;
    assert line[0] == '?' && line[1] == '?';
    ChangeLine(returncode, lines, line);
  }

  /** A line shorter than two characters changes nothing. */
  lemma ShortLineIgnored(returncode: int, lines: seq<string>, line: string)
    requires |line| < 2
    ensures GitInfo(returncode, lines + [line]) == GitInfo(returncode, lines)
  {
    ChangeLine(returncode, lines, line);
  }

  /** A detached-HEAD header alone gives "detached HEAD" with every count
      zero, whatever follows the marker: its ahead and behind are never read. */
  lemma DetachedHeadOnly(rest: string)
    ensures GitInfo(0, [HeaderPrefix + DetachedMarker + rest]) == Some(GitSummary(DetachedName, 0, 0, 0, 0))
    ensures GitSegment(0, [HeaderPrefix + DetachedMarker + rest]) == SegmentLead + DetachedName
  {
    var line := HeaderPrefix + DetachedMarker + rest;
    assert line[..|HeaderPrefix|] == HeaderPrefix;
    assert line[|HeaderPrefix|..][..|DetachedMarker|] == DetachedMarker;
    assert IsDetached(line);
    LastWhereSnoc([], line, RaisesValueError);
    LastWhereSnoc([], line, IsHeader);
    BranchOfSnoc([], line);
    AheadOfSnoc([], line);
    BehindOfSnoc([], line);
    CountWhereSnoc([], line, IsStaged);
    CountWhereSnoc([], line, IsUnstaged);
    assert [] + [line] == [line];
    SuffixEmptyIffAllZero(GitSummary(DetachedName, 0, 0, 0, 0));
  }
}
