/** The branch header as git writes it, `## <branch>...<upstream>` followed
    by ` [ahead N]`, ` [behind M]` or ` [ahead N, behind M]`, and what the
    summariser reads back from it. */
module GitTracking {
  import opened Wrappers
  import opened Strings
  import opened Numerals
  import opened GitStatus

  /** A branch name git accepts that also holds no Python whitespace: non-empty,
      no `str.isspace` character, no `[`, no `..`, not ending in `.`. git itself
      refuses only ASCII whitespace, so names with U+00A0, U+3000 and the like
      are valid to git but fall outside this predicate (see `BranchCutAtSpace`). */
  predicate IsRefName(name: string) {
    name != "" && NoSpace(name) && '[' !in name
    && (forall i :: 0 <= i < |name| - 1 ==> !(name[i] == '.' && name[i + 1] == '.'))
    && name[|name| - 1] != '.'
  }

  /** An upstream name: git forbids `[` in it as well. */
  predicate IsUpstreamName(name: string) {
    '[' !in name
  }

  /** What follows the ahead count: the behind count, if any, and `]`. */
  function AheadTail(behind: Option<nat>): string {
    match behind
    case None => "]"
    case Some(b) => ", behind " + NatStr(b) + "]"
  }

  /** The contents of the tracking bracket, after its `[`. With both counts
      absent git writes no bracket at all; `Tracking` never asks for that
      case, and the `"]"` given for it is never written into a header. */
  function Bracket(ahead: Option<nat>, behind: Option<nat>): string {
    match ahead
    case Some(a) => "ahead " + (NatStr(a) + AheadTail(behind))
    case None =>
      match behind
      case None => "]"
      case Some(b) => "behind " + (NatStr(b) + "]")
  }

  /** The tracking part git appends for the non-zero counts, nothing when
      both are zero. */
  function Tracking(ahead: Option<nat>, behind: Option<nat>): string {
    if ahead.None? && behind.None? then "" else " [" + Bracket(ahead, behind)
  }

  /** The header line git prints for a branch with an upstream. */
  function TrackingHeader(branch: string, upstream: string, ahead: Option<nat>, behind: Option<nat>): string {
    HeaderPrefix + branch + UpstreamSep + upstream + Tracking(ahead, behind)
  }

  /** Everything before the tracking bracket: `## <branch>...<upstream> `. */
  function Lead(branch: string, upstream: string): string {
    HeaderPrefix + branch + UpstreamSep + upstream + " "
  }

  // ----- string facts used below

  /** Decimal digits hold no punctuation and no letters. */
  lemma DigitsLack(n: nat, c: char)
    requires !IsDigit(c)
    ensures c !in NatStr(n)
  {
    var d := NatStr(n);
    forall i | 0 <= i < |d| ensures d[i] != c {
      assert IsDigit(d[i]);
    }
  }

  /** Splitting `p + sep + q` where neither `p` nor `q` holds the first
      character of `sep`: `split(sep)[0]` is `p` and `split(sep)[1]` is `q`. */
  lemma SplitAtOnly(p: string, sep: string, q: string)
    requires sep != "" && sep[0] !in p && sep[0] !in q
    ensures Contains(p + sep + q, sep)
    ensures SplitHead(p + sep + q, sep) == p && SplitSecond(p + sep + q, sep) == q
  {
    forall i | 0 <= i < |p| ensures p[i] != sep[0] {
      assert p[i] in p;
    }
    NoEarlyMatchByFirstChar(p, sep);
    SplitAtFirst(p, sep, q);
    AbsentByFirstChar(q, sep);
  }

  /** A string that does not begin with the first character of `w` does
      not start with `w`. */
  lemma NotStartsWith(s: string, w: string)
    requires s != [] && w != [] && s[0] != w[0]
    ensures !StartsWith(s, w)
  {
    if |w| <= |s| {
      assert s[..|w|][0] == s[0];
    }
  }

  /** A ref name holds no `...`, and none starts inside it. */
  lemma RefNameHasNoUpstreamSep(name: string)
    requires IsRefName(name)
    ensures NoEarlyMatch(name, UpstreamSep)
  {
    var s := name + UpstreamSep;
    forall j | 0 <= j < |name| ensures !OccursAt(s, UpstreamSep, j) {
      if j + |UpstreamSep| <= |s| {
        assert s[j..j + |UpstreamSep|][0] == s[j] && s[j..j + |UpstreamSep|][1] == s[j + 1];
        if j + 1 < |name| {
          assert s[j] == name[j] && s[j + 1] == name[j + 1];
        } else {
          assert s[j] == name[j];
        }
      }
    }
  }

  /** `HEAD (no branch)` has `E` at index 1 and a space at index 4; a branch
      name followed by `...` has neither. */
  lemma NotDetachedMarker(branch: string, rest: string)
    requires branch != "" && NoSpace(branch)
    ensures !StartsWith(branch + UpstreamSep + rest, DetachedMarker)
  {
    var s := branch + UpstreamSep + rest;
    if |DetachedMarker| <= |s| {
      var front := s[..|DetachedMarker|];
      if |branch| == 1 {
        assert front[1] == '.' != DetachedMarker[1];
      } else if |branch| <= 4 {
        assert front[4] == '.' != DetachedMarker[4];
      } else {
        assert front[4] == branch[4] != DetachedMarker[4];
      }
    }
  }

  /** With no `[` before or after a single `[`, the marker `[word` occurs
      exactly when the text after the `[` starts with `word`, and then the
      source's `split(marker)[1]` is the rest of that text. */
  lemma MarkerInBracket(lead: string, inside: string, word: string)
    requires '[' !in lead && '[' !in inside
    ensures Contains(lead + "[" + inside, "[" + word) <==> StartsWith(inside, word)
    ensures StartsWith(inside, word) ==> SplitSecond(lead + "[" + inside, "[" + word) == inside[|word|..]
  {
    var s := lead + "[" + inside;
    var m := "[" + word;
    if StartsWith(inside, word) {
      var rest := inside[|word|..];
      assert inside == word + rest;
      assert s == lead + m + rest;
      assert '[' !in rest by {
        forall i | 0 <= i < |rest| ensures rest[i] != '[' {
          assert rest[i] == inside[|word| + i] && inside[|word| + i] in inside;
        }
      }
      SplitAtOnly(lead, m, rest);
    } else {
      forall j | 0 <= j && j + |m| <= |s| ensures !OccursAt(s, m, j) {
        assert s[j..j + |m|][0] == s[j];
        if j == |lead| {
          assert s[j + 1..j + |m|] == inside[..|word|];
          assert s[j..j + |m|][1..] == s[j + 1..j + |m|];
        } else if j < |lead| {
          assert s[j] == lead[j] && lead[j] in lead;
        } else {
          assert s[j] == inside[j - |lead| - 1] && inside[j - |lead| - 1] in inside;
        }
      }
    }
  }

  /** A count followed by `]`, read up to the `]`, is its digits, and
      `int()` reads them back. */
  lemma CountBeforeClose(n: nat)
    ensures SplitHead(NatStr(n) + "]", "]") == NatStr(n)
    ensures ParseInt(NatStr(n)) == Some(n)
  {
    DigitsLack(n, ']');
    SplitAtOnly(NatStr(n), "]", "");
    assert NatStr(n) + "]" + "" == NatStr(n) + "]";
    ParseIntStr(n);
  }

  /** The ahead count's text, read as the source reads it after `[ahead `:
      up to the first `,`, then up to the first `]`. */
  lemma AheadCountText(a: nat, behind: Option<nat>)
    ensures SplitHead(SplitHead(NatStr(a) + AheadTail(behind), ","), "]") == NatStr(a)
  {
    match behind
    case None => AheadCountAlone(a);
    case Some(b) => AheadCountBeforeBehind(a, b);
  }

  lemma AheadCountAlone(a: nat)
    ensures SplitHead(SplitHead(NatStr(a) + "]", ","), "]") == NatStr(a)
  {
    DigitsLack(a, ',');
    AbsentByFirstChar(NatStr(a) + "]", ",");
    CountBeforeClose(a);
  }

  lemma AheadCountBeforeBehind(a: nat, b: nat)
    ensures SplitHead(SplitHead(NatStr(a) + AheadTail(Some(b)), ","), "]") == NatStr(a)
  {
    AheadBeforeComma(a, b);
    DigitsLack(a, ']');
    AbsentByFirstChar(NatStr(a), "]");
  }

  lemma AheadBeforeComma(a: nat, b: nat)
    ensures SplitHead(NatStr(a) + AheadTail(Some(b)), ",") == NatStr(a)
  {
    var tail := " behind " + NatStr(b) + "]";
    AheadTailBehind(b);
    Regroup3(NatStr(a), ",", tail);
    DigitsLack(a, ',');
    TailLacksComma(b);
    SplitAtOnly(NatStr(a), ",", tail);
  }

  lemma TailLacksComma(b: nat)
    ensures ',' !in " behind " + NatStr(b) + "]"
  {
    DigitsLack(b, ',');
    assert ',' !in " behind " && ',' !in "]";
  }

  lemma AheadTailBehind(b: nat)
    ensures AheadTail(Some(b)) == "," + (" behind " + NatStr(b) + "]")
  {
    assert ", behind " == "," + " behind ";
  }

  /** Only a regrouping of concatenations: a lemma of its own so that the
      solver is handed the regrouping instead of searching for it. */
  lemma Regroup3(x: string, y: string, z: string)
    ensures x + (y + z) == x + y + z
  {
  }

  // ----- the shape of a git-written header

  /** No `[` in the bracket contents: git closes it without opening another. */
  lemma BracketHasNoOpen(ahead: Option<nat>, behind: Option<nat>)
    ensures '[' !in Bracket(ahead, behind)
  {
    if ahead.Some? {
      DigitsLack(ahead.value, '[');
    }
    if behind.Some? {
      DigitsLack(behind.value, '[');
    }
  }

  /** The bracket opens with `ahead ` exactly when there is an ahead count,
      and with `behind ` exactly when there is only a behind count. */
  lemma BracketOpening(ahead: Option<nat>, behind: Option<nat>)
    ensures StartsWith(Bracket(ahead, behind), "ahead ") <==> ahead.Some?
    ensures StartsWith(Bracket(ahead, behind), "behind ") <==> ahead.None? && behind.Some?
  {
    var x := Bracket(ahead, behind);
    match ahead
    case Some(a) =>
      assert x[..|"ahead "|] == "ahead ";
      NotStartsWith(x, "behind ");
    case None =>
      match behind
      case None =>
        NotStartsWith(x, "ahead ");
        NotStartsWith(x, "behind ");
      case Some(b) =>
        assert x[..|"behind "|] == "behind ";
        NotStartsWith(x, "ahead ");
  }

  /** With a tracking part, the header is the lead, one `[`, and the
      bracket contents. */
  lemma HeaderAtBracket(branch: string, upstream: string, ahead: Option<nat>, behind: Option<nat>)
    requires '[' !in branch && '[' !in upstream
    requires ahead.Some? || behind.Some?
    ensures TrackingHeader(branch, upstream, ahead, behind) == Lead(branch, upstream) + "[" + Bracket(ahead, behind)
    ensures '[' !in Lead(branch, upstream)
  {
    var x := Bracket(ahead, behind);
    assert Tracking(ahead, behind) == " [" + x;
    assert HeaderPrefix + branch + UpstreamSep + upstream + (" [" + x)
        == HeaderPrefix + branch + UpstreamSep + upstream + " " + "[" + x;
    assert '[' !in HeaderPrefix && '[' !in UpstreamSep && '[' !in " ";
  }

  /** Without a tracking part there is no `[` at all, so no marker. */
  lemma HeaderWithoutBracket(branch: string, upstream: string, marker: string)
    requires '[' !in branch && '[' !in upstream
    requires marker != "" && marker[0] == '['
    ensures !Contains(TrackingHeader(branch, upstream, None, None), marker)
  {
    var h := TrackingHeader(branch, upstream, None, None);
    assert h == HeaderPrefix + branch + UpstreamSep + upstream;
    AbsentByFirstChar(h, marker);
  }

  // ----- the header as the source reads it

  /** `## <branch>...<rest>` is a header, and after `## ` comes the rest. */
  lemma HeaderShape(branch: string, rest: string)
    ensures IsHeader(HeaderPrefix + branch + UpstreamSep + rest)
    ensures (HeaderPrefix + branch + UpstreamSep + rest)[|HeaderPrefix|..] == branch + UpstreamSep + rest
  {
    var h := HeaderPrefix + branch + UpstreamSep + rest;
    assert h == HeaderPrefix + (branch + UpstreamSep + rest);
    assert h[..|HeaderPrefix|] == HeaderPrefix;
  }

  /** A header naming a non-empty word before `...` is not the detached one. */
  lemma IsBranchHeaderOf(branch: string, rest: string)
    requires branch != "" && NoSpace(branch)
    ensures IsBranchHeader(HeaderPrefix + branch + UpstreamSep + rest)
  {
    HeaderShape(branch, rest);
    NotDetachedMarker(branch, rest);
  }

  /** The source's branch token of such a header is the ref name itself. */
  lemma BranchTokenOf(branch: string, rest: string)
    requires IsRefName(branch)
    ensures BranchToken(HeaderPrefix + branch + UpstreamSep + rest) == branch
  {
    HeaderShape(branch, rest);
    RefNameHasNoUpstreamSep(branch);
    SplitAtFirst(branch, UpstreamSep, rest);
    FirstTokenOfWord(branch);
  }

  /** A git-written header names a branch, and the branch it names is the
      one git wrote. */
  lemma HeaderNamesBranch(branch: string, upstream: string, ahead: Option<nat>, behind: Option<nat>)
    requires IsRefName(branch) && IsUpstreamName(upstream)
    ensures var h := TrackingHeader(branch, upstream, ahead, behind);
      IsBranchHeader(h) && HeaderBranch(h) == branch && !Crashes(h)
  {
    var rest := upstream + Tracking(ahead, behind);
    assert TrackingHeader(branch, upstream, ahead, behind) == HeaderPrefix + branch + UpstreamSep + rest;
    IsBranchHeaderOf(branch, rest);
    BranchTokenOf(branch, rest);
  }

  /** Reading the ahead count out of a lead, a `[` and bracket contents. */
  lemma AheadInBracket(lead: string, ahead: Option<nat>, behind: Option<nat>)
    requires '[' !in lead
    ensures var s := lead + "[" + Bracket(ahead, behind);
      (Contains(s, AheadMarker) <==> ahead.Some?)
      && (ahead.Some? ==> Contains(s, AheadMarker) && ParseInt(AheadText(s)) == Some(ahead.value))
  {
    var x := Bracket(ahead, behind);
    BracketHasNoOpen(ahead, behind);
    BracketOpening(ahead, behind);
    assert AheadMarker == "[" + "ahead ";
    MarkerInBracket(lead, x, "ahead ");
    if ahead.Some? {
      var a := ahead.value;
      assert x[|"ahead "|..] == NatStr(a) + AheadTail(behind);
      AheadCountText(a, behind);
      CountBeforeClose(a);
    }
  }

  /** As written, reading `[behind ` out of a lead, a `[` and bracket
      contents: found only when the bracket opens with `behind `. */
  lemma BehindInBracketAsWritten(lead: string, ahead: Option<nat>, behind: Option<nat>)
    requires '[' !in lead
    ensures var s := lead + "[" + Bracket(ahead, behind);
      (Contains(s, BehindMarker) <==> ahead.None? && behind.Some?)
      && (ahead.None? && behind.Some? ==> Contains(s, BehindMarker) && ParseInt(BehindText(s)) == Some(behind.value))
  {
    var x := Bracket(ahead, behind);
    BracketHasNoOpen(ahead, behind);
    BracketOpening(ahead, behind);
    assert BehindMarker == "[" + "behind ";
    MarkerInBracket(lead, x, "behind ");
    if ahead.None? && behind.Some? {
      assert x[|"behind "|..] == NatStr(behind.value) + "]";
      CountBeforeClose(behind.value);
    }
  }

  /** The source finds an ahead count exactly when git wrote one, and reads
      the count git wrote. */
  lemma HeaderAheadAsWritten(branch: string, upstream: string, ahead: Option<nat>, behind: Option<nat>)
    requires IsRefName(branch) && IsUpstreamName(upstream)
    ensures var h := TrackingHeader(branch, upstream, ahead, behind);
      (HasAhead(h) <==> ahead.Some?)
      && (HasAhead(h) ==> ParseInt(AheadText(h)) == Some(ahead.value))
  {
    HeaderNamesBranch(branch, upstream, ahead, behind);
    if ahead.None? && behind.None? {
      HeaderWithoutBracket(branch, upstream, AheadMarker);
    } else {
      HeaderAtBracket(branch, upstream, ahead, behind);
      AheadInBracket(Lead(branch, upstream), ahead, behind);
    }
  }

  /** As written, the source finds a `[behind ` count only when git wrote a
      behind count and no ahead count: with both, the bracket reads
      `[ahead N, behind M]` and holds no `[behind `. */
  lemma HeaderBehindAsWritten(branch: string, upstream: string, ahead: Option<nat>, behind: Option<nat>)
    requires IsRefName(branch) && IsUpstreamName(upstream)
    ensures var h := TrackingHeader(branch, upstream, ahead, behind);
      (HasBehind(h) <==> ahead.None? && behind.Some?)
      && (HasBehind(h) ==> ParseInt(BehindText(h)) == Some(behind.value))
  {
    HeaderNamesBranch(branch, upstream, ahead, behind);
    if ahead.None? && behind.None? {
      HeaderWithoutBracket(branch, upstream, BehindMarker);
    } else {
      HeaderAtBracket(branch, upstream, ahead, behind);
      BehindInBracketAsWritten(Lead(branch, upstream), ahead, behind);
    }
  }

  /** A report whose only line is `line`, a header the source reads without
      error: its branch and its counts, nothing staged or unstaged. */
  lemma OnlyLine(line: string)
    requires IsHeader(line) && !RaisesValueError(line)
    ensures GitInfo(0, [line]) == Some(GitSummary(HeaderBranch(line), 0, 0,
      if HasAhead(line) then ParseInt(AheadText(line)).GetOr(0) else 0,
      if HasBehind(line) then ParseInt(BehindText(line)).GetOr(0) else 0))
  {
    assert [] + [line] == [line];
    LastWhereSnoc([], line, RaisesValueError);
    LastWhereSnoc([], line, IsHeader);
    BranchOfSnoc([], line);
    AheadOfSnoc([], line);
    BehindOfSnoc([], line);
    CountWhereSnoc([], line, IsStaged);
    CountWhereSnoc([], line, IsUnstaged);
  }

  /** What the summariser reports for a clean tree whose only line is a
      git-written header: the branch and the ahead count git wrote, but a
      behind count only when there is no ahead count. */
  lemma HeaderSummaryAsWritten(branch: string, upstream: string, ahead: Option<nat>, behind: Option<nat>)
    requires IsRefName(branch) && IsUpstreamName(upstream)
    ensures GitInfo(0, [TrackingHeader(branch, upstream, ahead, behind)]) ==
      Some(GitSummary(branch, 0, 0, ahead.GetOr(0), if ahead.None? then behind.GetOr(0) else 0))
  {
    HeaderNamesBranch(branch, upstream, ahead, behind);
    HeaderAheadAsWritten(branch, upstream, ahead, behind);
    HeaderBehindAsWritten(branch, upstream, ahead, behind);
    OnlyLine(TrackingHeader(branch, upstream, ahead, behind));
  }

  // ----- a worked example

  /** The header `git status --porcelain -b` prints for `main` two commits
      ahead of and one behind `origin/main`:
      `## main...origin/main [ahead 2, behind 1]`. */
  const ExampleHeader: string := HeaderPrefix + "main" + UpstreamSep + "origin/main" + " [ahead 2, behind 1]"

  /** A one-digit count is written as that digit. */
  lemma OneDigit(d: nat)
    requires d < 10
    ensures NatStr(d) == [DigitChar(d)]
  {
  }

  lemma ExampleBracket()
    ensures Bracket(Some(2), Some(1)) == "ahead 2, behind 1]"
  {
    OneDigit(2);
    OneDigit(1);
    assert AheadTail(Some(1)) == ", behind " + "1" + "]";
  }

  /** The example is the header git writes for those names and counts. */
  lemma ExampleHeaderIsGitWritten()
    ensures ExampleHeader == TrackingHeader("main", "origin/main", Some(2), Some(1))
    ensures IsRefName("main") && IsUpstreamName("origin/main")
  {
    ExampleBracket();
    assert Tracking(Some(2), Some(1)) == " [" + "ahead 2, behind 1]";
  }

  /** Read alone, the example header reports two ahead and nothing behind. */
  lemma ExampleHeaderSummary()
    ensures GitInfo(0, [ExampleHeader]) == Some(GitSummary("main", 0, 0, 2, 0))
  {
    ExampleHeaderIsGitWritten();
    HeaderSummaryAsWritten("main", "origin/main", Some(2), Some(1));
  }

  /** The example header followed by a staged change `M  a`, an unstaged
      change ` M b` and an untracked file `?? c`, whatever the paths: one
      staged, two unstaged (the untracked file among them), two ahead and,
      as written, nothing behind. */
  lemma ExampleWithChanges(a: string, b: string, c: string)
    ensures GitInfo(0, [ExampleHeader] + ["M  " + a] + [" M " + b] + ["?? " + c])
         == Some(GitSummary("main", 1, 2, 2, 0))
  {
    var la, lb, lc := "M  " + a, " M " + b, "?? " + c;
    assert la[0] == 'M' && la[1] == ' ';
    assert lb[0] == ' ' && lb[1] == 'M';
    assert lc[0] == '?' && lc[1] == '?';
    ExampleHeaderSummary();
    ThreeChanges([ExampleHeader], GitSummary("main", 0, 0, 2, 0), la, lb, lc);
  }

  /** A staged change, an unstaged change and an untracked file after a
      known summary add one staged and two unstaged, nothing else. */
  lemma ThreeChanges(lines: seq<string>, g: GitSummary, a: string, b: string, c: string)
    requires |a| >= 2 && a[0] == 'M' && a[1] == ' '
    requires |b| >= 2 && b[0] == ' ' && b[1] == 'M'
    requires |c| >= 2 && c[0] == '?' && c[1] == '?'
    requires GitInfo(0, lines) == Some(g)
    ensures GitInfo(0, lines + [a] + [b] + [c]) ==
      Some(GitSummary(g.branch, g.staged + 1, g.unstaged + 2, g.ahead, g.behind))
  {
    var l1, l2 := lines + [a], lines + [a] + [b];
    ChangeStep(lines, g, a);
    var g1 := g.(staged := g.staged + 1);
    assert GitInfo(0, l1) == Some(g1);
    ChangeStep(l1, g1, b);
    var g2 := g1.(unstaged := g1.unstaged + 1);
    assert GitInfo(0, l2) == Some(g2);
    ChangeStep(l2, g2, c);
  }

  /** One change line on top of a known summary, as its columns say. */
  lemma ChangeStep(lines: seq<string>, g: GitSummary, line: string)
    requires |line| >= 2 && line[0] != '#'
    requires GitInfo(0, lines) == Some(g)
    ensures GitInfo(0, lines + [line]) ==
      Some(g.(staged := g.staged + (if line[0] != ' ' && line[0] != '?' then 1 else 0),
              unstaged := g.unstaged + (if line[1] != ' ' then 1 else 0)))
  {
    assert !IsHeader(line) by { assert line[0] != HeaderPrefix[0]; }
    ChangeLine(0, lines, line);
  }

  /** The example summary is drawn as `main` two ahead, with no behind
      count. */
  lemma ExampleRender()
    ensures Render(GitSummary("main", 0, 0, 2, 0)) == SegmentLead + "main" + " (2 ahead)"
  {
    var g := GitSummary("main", 0, 0, 2, 0);
    AheadOnlySuffix(g);
    OneDigit(2);
    assert Str(2) == "2";
  }

  /** With only an ahead count, the suffix is ` (N ahead)`. */
  lemma AheadOnlySuffix(g: GitSummary)
    requires g.staged == 0 && g.unstaged == 0 && g.ahead != 0 && g.behind == 0
    ensures Suffix(g) == " (" + Str(g.ahead) + " ahead)"
  {
    var part := Str(g.ahead) + " " + "ahead";
    assert Parts(g) == [part];
    assert Join(Parts(g), ", ") == part;
    assert " (" + part + ")" == " (" + Str(g.ahead) + " ahead)";
  }

  /** The segment drawn for the example header. */
  lemma ExampleHeaderSegment()
    ensures GitSegment(0, [ExampleHeader]) == SegmentLead + "main" + " (2 ahead)"
  {
    ExampleHeaderSummary();
    ExampleRender();
  }

  // ----- other headers

  /** A ref name holds no `...` at all. */
  lemma RefNameLacksUpstreamSep(name: string)
    requires IsRefName(name)
    ensures !Contains(name, UpstreamSep)
  {
    RefNameHasNoUpstreamSep(name);
    forall j | OccursAt(name, UpstreamSep, j) ensures OccursAt(name + UpstreamSep, UpstreamSep, j) {
      assert (name + UpstreamSep)[j..j + |UpstreamSep|] == name[j..j + |UpstreamSep|];
    }
    ContainsIffOccurs(name, UpstreamSep);
  }

  /** A word without whitespace never starts with `HEAD (no branch)`, which
      holds a space. */
  lemma WordNotDetached(word: string)
    requires NoSpace(word)
    ensures !StartsWith(word, DetachedMarker)
  {
    if |DetachedMarker| <= |word| {
      assert word[..|DetachedMarker|][4] == word[4];
    }
  }

  /** The header git writes for a branch with no upstream, `## <branch>`,
      read alone: the branch and no counts. */
  lemma HeaderWithoutUpstream(branch: string)
    requires IsRefName(branch)
    ensures GitInfo(0, [HeaderPrefix + branch]) == Some(GitSummary(branch, 0, 0, 0, 0))
  {
    var h := HeaderPrefix + branch;
    assert h[..|HeaderPrefix|] == HeaderPrefix && h[|HeaderPrefix|..] == branch;
    WordNotDetached(branch);
    RefNameLacksUpstreamSep(branch);
    FirstTokenOfWord(branch);
    assert '[' !in h;
    BracketlessHeader(h);
  }

  /** A header without `[` carries no counts: read alone it gives its
      branch and zeros. */
  lemma BracketlessHeader(h: string)
    requires IsHeader(h) && '[' !in h
    ensures GitInfo(0, [h]) == Some(GitSummary(HeaderBranch(h), 0, 0, 0, 0))
  {
    AbsentByFirstChar(h, AheadMarker);
    AbsentByFirstChar(h, BehindMarker);
    OnlyLine(h);
  }

  /** `split()[0]` stops at the first Python whitespace character: a branch
      name git accepts that holds one, such as U+00A0, after its first
      character is reported only up to that character. */
  lemma BranchCutAtSpace(name: string, k: nat, rest: string)
    requires NoEarlyMatch(name, UpstreamSep)
    requires 0 < k < |name| && NoSpace(name[..k]) && IsSpace(name[k])
    ensures BranchToken(HeaderPrefix + name + UpstreamSep + rest) == name[..k]
  {
    HeaderShape(name, rest);
    SplitAtFirst(name, UpstreamSep, rest);
    FirstTokenCut(name, k);
  }

  /** `split()[0]` skips whitespace in front: a branch name git accepts
      that opens with a Python whitespace character is reported as the word
      after it, and as nothing (the `IndexError` case) when it holds no other
      character. */
  lemma BranchLeadingSpace(name: string, rest: string)
    requires NoEarlyMatch(name, UpstreamSep)
    requires name != [] && IsSpace(name[0])
    ensures var token := BranchToken(HeaderPrefix + name + UpstreamSep + rest);
      token == FirstToken(name[1..])
      && (token == "" <==> forall i :: 0 <= i < |name| ==> IsSpace(name[i]))
  {
    HeaderShape(name, rest);
    SplitAtFirst(name, UpstreamSep, rest);
    assert TrimStart(name) == TrimStart(name[1..]);
  }

  /** The lead git puts before the branch while it has no commits:
      `## No commits yet on <branch>`. */
  const UnbornLead: string := "No " + UnbornTail
  const UnbornTail: string := "commits yet on "

  /** The header of a branch with no commits yet. */
  function UnbornHeader(branch: string): string {
    HeaderPrefix + UnbornLead + branch
  }

  /** As written, any branch header whose text opens with the word `No` is
      reported as branch `No`: `split()[0]` keeps only the first word. */
  lemma NoWordHeader(rest: string)
    ensures var h := HeaderPrefix + "No " + rest;
      IsBranchHeader(h) && HeaderBranch(h) == "No"
  {
    var h := HeaderPrefix + "No " + rest;
    var x := "No " + rest;
    assert h[..|HeaderPrefix|] == HeaderPrefix && h[|HeaderPrefix|..] == x;
    NotStartsWith(x, DetachedMarker);
    forall j | 0 <= j < 3 ensures !OccursAt(x, UpstreamSep, j) {
      if j + |UpstreamSep| <= |x| {
        assert x[j..j + |UpstreamSep|][0] == x[j];
      }
    }
    var head := SplitHead(x, UpstreamSep);
    assert |head| >= 3 && head[..2] == "No" && head[2] == ' ';
    FirstTokenCut(head, 2);
  }

  /** As written, the header of a branch with no commits yet names the
      branch `No`, whatever the branch is called. */
  lemma UnbornHeaderAsWritten(branch: string)
    requires IsRefName(branch)
    ensures GitInfo(0, [UnbornHeader(branch)]) == Some(GitSummary("No", 0, 0, 0, 0))
  {
    var h := UnbornHeader(branch);
    var rest := UnbornTail + branch;
    Regroup4(HeaderPrefix, "No ", UnbornTail, branch);
    NoWordHeader(rest);
    UnbornLeadHasNoOpen();
    BracketlessHeader(h);
  }

  lemma UnbornLeadHasNoOpen()
    ensures '[' !in UnbornLead
  {
    forall i | 0 <= i < |UnbornLead| ensures UnbornLead[i] != '[' {
    }
  }

  /** Only a regrouping of concatenations: a lemma of its own so that the
      solver is handed the regrouping instead of searching for it. */
  lemma Regroup4(a: string, b: string, c: string, d: string)
    ensures a + (b + c) + d == a + b + (c + d)
  {
  }

  // ----- the corrected reading of the behind count

  /** The bracket after the first `[`: `line.split('[')[1]`. */
  function TrackingText(line: string): string
    requires Contains(line, "[")
  {
    SplitSecond(line, "[")
  }

  /** Corrected: a branch header whose bracket mentions `behind `, whether
      or not an ahead count comes first. */
  predicate HasBehindFixed(line: string) {
    IsBranchHeader(line) && Contains(line, "[") && Contains(TrackingText(line), "behind ")
  }

  /** Corrected: the text after `behind ` inside the bracket, up to `]`. */
  function BehindTextFixed(line: string): string
    requires HasBehindFixed(line)
  {
    SplitHead(SplitSecond(TrackingText(line), "behind "), "]")
  }

  /** Without a behind count the bracket never mentions `behind `. */
  lemma NoBehindInBracket(ahead: Option<nat>)
    ensures !Contains(Bracket(ahead, None), "behind ")
  {
    if ahead.Some? {
      DigitsLack(ahead.value, 'b');
    }
    AbsentByFirstChar(Bracket(ahead, None), "behind ");
  }

  /** With a behind count, what follows `behind ` in the bracket is that
      count and the closing `]`. */
  lemma BehindCountInBracket(ahead: Option<nat>, b: nat)
    ensures Contains(Bracket(ahead, Some(b)), "behind ")
    ensures SplitSecond(Bracket(ahead, Some(b)), "behind ") == NatStr(b) + "]"
  {
    match ahead
    case None => BehindCountAlone(b);
    case Some(a) => BehindCountAfterAhead(a, b);
  }

  lemma BehindCountAlone(b: nat)
    ensures Contains(Bracket(None, Some(b)), "behind ")
    ensures SplitSecond(Bracket(None, Some(b)), "behind ") == NatStr(b) + "]"
  {
    assert Bracket(None, Some(b)) == "" + "behind " + (NatStr(b) + "]");
    DigitsLack(b, 'b');
    BehindAfter("", b);
  }

  lemma BehindCountAfterAhead(a: nat, b: nat)
    ensures Contains(Bracket(Some(a), Some(b)), "behind ")
    ensures SplitSecond(Bracket(Some(a), Some(b)), "behind ") == NatStr(b) + "]"
  {
    var front := "ahead " + NatStr(a) + ", ";
    BracketBothShape(a, b);
    FrontLacksB(a);
    DigitsLack(b, 'b');
    BehindAfter(front, b);
  }

  lemma BracketBothShape(a: nat, b: nat)
    ensures Bracket(Some(a), Some(b)) == ("ahead " + NatStr(a) + ", ") + "behind " + (NatStr(b) + "]")
  {
    assert ", behind " == ", " + "behind ";
    Regroup("ahead ", NatStr(a), ", ", "behind ", NatStr(b), "]");
  }

  /** Only a regrouping of concatenations: a lemma of its own so that the
      solver is handed the regrouping instead of searching for it. */
  lemma Regroup(p: string, x: string, q: string, r: string, y: string, z: string)
    ensures p + (x + ((q + r) + y + z)) == (p + x + q) + r + (y + z)
  {
  }

  lemma FrontLacksB(a: nat)
    ensures 'b' !in "ahead " + NatStr(a) + ", "
  {
    DigitsLack(a, 'b');
    assert 'b' !in "ahead " && 'b' !in ", ";
  }

  /** `behind ` after text without a `b`: what follows it is the count. */
  lemma BehindAfter(front: string, b: nat)
    requires 'b' !in front && 'b' !in NatStr(b)
    ensures Contains(front + "behind " + (NatStr(b) + "]"), "behind ")
    ensures SplitSecond(front + "behind " + (NatStr(b) + "]"), "behind ") == NatStr(b) + "]"
  {
    SplitAtOnly(front, "behind ", NatStr(b) + "]");
  }

  /** Corrected: the tracking text of a lead, a `[` and bracket contents is
      the bracket contents. */
  lemma TrackingTextOf(lead: string, ahead: Option<nat>, behind: Option<nat>)
    requires '[' !in lead
    ensures Contains(lead + "[" + Bracket(ahead, behind), "[")
    ensures TrackingText(lead + "[" + Bracket(ahead, behind)) == Bracket(ahead, behind)
  {
    BracketHasNoOpen(ahead, behind);
    SplitAtOnly(lead, "[", Bracket(ahead, behind));
  }

  /** The corrected reading finds a behind count exactly when git wrote
      one, with or without an ahead count before it, and reads the count
      git wrote. */
  lemma HeaderBehindFixed(branch: string, upstream: string, ahead: Option<nat>, behind: Option<nat>)
    requires IsRefName(branch) && IsUpstreamName(upstream)
    ensures var h := TrackingHeader(branch, upstream, ahead, behind);
      (HasBehindFixed(h) <==> behind.Some?)
      && (HasBehindFixed(h) ==> ParseInt(BehindTextFixed(h)) == Some(behind.value))
  {
    HeaderNamesBranch(branch, upstream, ahead, behind);
    if ahead.None? && behind.None? {
      HeaderWithoutBracket(branch, upstream, "[");
    } else {
      HeaderAtBracket(branch, upstream, ahead, behind);
      TrackingTextOf(Lead(branch, upstream), ahead, behind);
      if behind.Some? {
        BehindCountInBracket(ahead, behind.value);
        CountBeforeClose(behind.value);
      } else {
        NoBehindInBracket(ahead);
      }
    }
  }

  // ----- the summary with the corrected behind reading

  /** Corrected: `int()` fails on the ahead text or on the corrected behind
      text. */
  predicate RaisesValueErrorFixed(line: string) {
    (HasAhead(line) && ParseInt(AheadText(line)).None?)
    || (HasBehindFixed(line) && ParseInt(BehindTextFixed(line)).None?)
  }

  /** Corrected: the behind count of the last branch header whose bracket
      mentions one, else 0. */
  function BehindOfFixed(lines: seq<string>): int {
    match LastWhere(lines, HasBehindFixed)
    case None => 0
    case Some(k) => ParseInt(BehindTextFixed(lines[k])).GetOr(0)
  }

  /** Corrected: what git reported, reading the behind count wherever it
      stands in the bracket; everything else as in `GitInfo`. */
  function GitInfoFixed(returncode: int, lines: seq<string>): (r: Option<GitSummary>)
    ensures returncode != 0 ==> r.None?
    ensures r.Some? ==> !AnyWhere(lines, RaisesValueErrorFixed) && AnyWhere(lines, IsHeader)
    ensures r.Some? && GitInfo(returncode, lines).Some? ==>
      r.value == GitInfo(returncode, lines).value.(behind := BehindOfFixed(lines))
  {
    if returncode != 0 || AnyWhere(lines, RaisesValueErrorFixed) || !AnyWhere(lines, IsHeader)
    then None
    else Some(GitSummary(BranchOf(lines), CountWhere(lines, IsStaged), CountWhere(lines, IsUnstaged),
                         AheadOf(lines), BehindOfFixed(lines)))
  }

  /** Corrected: what a single header line reports. */
  lemma OnlyLineFixed(line: string)
    requires IsHeader(line) && !RaisesValueErrorFixed(line)
    ensures GitInfoFixed(0, [line]) == Some(GitSummary(HeaderBranch(line), 0, 0,
      if HasAhead(line) then ParseInt(AheadText(line)).GetOr(0) else 0,
      if HasBehindFixed(line) then ParseInt(BehindTextFixed(line)).GetOr(0) else 0))
  {
    assert [] + [line] == [line];
    LastWhereSnoc([], line, RaisesValueErrorFixed);
    LastWhereSnoc([], line, IsHeader);
    LastWhereSnoc([], line, HasBehindFixed);
    BranchOfSnoc([], line);
    AheadOfSnoc([], line);
    CountWhereSnoc([], line, IsStaged);
    CountWhereSnoc([], line, IsUnstaged);
  }

  /** Corrected: a clean tree whose only line is a git-written header
      reports the branch and both counts git wrote. */
  lemma HeaderSummaryFixed(branch: string, upstream: string, ahead: Option<nat>, behind: Option<nat>)
    requires IsRefName(branch) && IsUpstreamName(upstream)
    ensures GitInfoFixed(0, [TrackingHeader(branch, upstream, ahead, behind)]) ==
      Some(GitSummary(branch, 0, 0, ahead.GetOr(0), behind.GetOr(0)))
  {
    HeaderNamesBranch(branch, upstream, ahead, behind);
    HeaderAheadAsWritten(branch, upstream, ahead, behind);
    HeaderBehindFixed(branch, upstream, ahead, behind);
    OnlyLineFixed(TrackingHeader(branch, upstream, ahead, behind));
  }

  /** Corrected: the example header reports two ahead and one behind. */
  lemma ExampleHeaderSummaryFixed()
    ensures GitInfoFixed(0, [ExampleHeader]) == Some(GitSummary("main", 0, 0, 2, 1))
  {
    ExampleHeaderIsGitWritten();
    HeaderSummaryFixed("main", "origin/main", Some(2), Some(1));
  }

  // ----- the corrected reading of a branch with no commits yet

  /** The branch token read as the header means it: after
      `No commits yet on `, the branch is the word that follows; every other
      header is read as before. */
  function BranchTokenFixed(line: string): (token: string)
    requires IsHeader(line)
    ensures !StartsWith(line[|HeaderPrefix|..], UnbornLead) ==> token == BranchToken(line)
  {
    var branchPart := line[|HeaderPrefix|..];
    if StartsWith(branchPart, UnbornLead)
    then FirstToken(SplitHead(branchPart[|UnbornLead|..], UpstreamSep))
    else BranchToken(line)
  }

  /** Corrected: the header of a branch with no commits yet names that
      branch, with or without an upstream after it. */
  lemma UnbornHeaderFixed(branch: string, upstream: string)
    requires IsRefName(branch)
    ensures IsHeader(UnbornHeader(branch)) && BranchTokenFixed(UnbornHeader(branch)) == branch
    ensures var h := UnbornHeader(branch) + UpstreamSep + upstream;
      IsHeader(h) && BranchTokenFixed(h) == branch
  {
    UnbornBareFixed(branch);
    UnbornTrackedFixed(branch, upstream);
  }

  /** Corrected: `## No commits yet on <branch>` names the branch. */
  lemma UnbornBareFixed(branch: string)
    requires IsRefName(branch)
    ensures IsHeader(UnbornHeader(branch)) && BranchTokenFixed(UnbornHeader(branch)) == branch
  {
    FirstTokenOfWord(branch);
    var h := UnbornHeader(branch);
    assert h[..|HeaderPrefix|] == HeaderPrefix && h[|HeaderPrefix|..] == UnbornLead + branch;
    assert (UnbornLead + branch)[..|UnbornLead|] == UnbornLead;
    assert (UnbornLead + branch)[|UnbornLead|..] == branch;
    RefNameLacksUpstreamSep(branch);
  }

  /** Corrected: the same header followed by `...<upstream>` names the branch. */
  lemma UnbornTrackedFixed(branch: string, upstream: string)
    requires IsRefName(branch)
    ensures var h := UnbornHeader(branch) + UpstreamSep + upstream;
      IsHeader(h) && BranchTokenFixed(h) == branch
  {
    FirstTokenOfWord(branch);
    var hu := UnbornHeader(branch) + UpstreamSep + upstream;
    var part := UnbornLead + (branch + UpstreamSep + upstream);
    assert hu[..|HeaderPrefix|] == HeaderPrefix && hu[|HeaderPrefix|..] == part;
    assert part[..|UnbornLead|] == UnbornLead;
    assert part[|UnbornLead|..] == branch + UpstreamSep + upstream;
    RefNameHasNoUpstreamSep(branch);
    SplitAtFirst(branch, UpstreamSep, upstream);
  }
}
