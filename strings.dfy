/** The few Python `str` operations the status line relies on:
    `startswith`, `in`, `split(sep)` and `split()`, stated over `seq<char>`. */
module Strings {
  import opened Wrappers

  /** `sep` occurs in `s` at position `j`. */
  predicate OccursAt(s: string, sep: string, j: int) {
    0 <= j && j + |sep| <= |s| && s[j..j + |sep|] == sep
  }

  /** `s.startswith(prefix)` */
  predicate StartsWith(s: string, prefix: string) {
    |prefix| <= |s| && s[..|prefix|] == prefix
  }

  /** Moving one character into `s` moves every occurrence one place left. */
  lemma OccursAtShift(s: string, sep: string, j: nat)
    requires s != []
    ensures OccursAt(s, sep, j + 1) <==> OccursAt(s[1..], sep, j)
  {
    if j + 1 + |sep| <= |s| {
      assert s[j + 1..j + 1 + |sep|] == s[1..][j..j + |sep|];
    }
  }

  /** Position of the leftmost occurrence of `sep` in `s` (`str.find`, with
      `None` where Python answers -1). */
  function Find(s: string, sep: string): (r: Option<nat>)
    ensures r.Some? ==> OccursAt(s, sep, r.value)
    ensures r.Some? ==> forall j :: 0 <= j < r.value ==> !OccursAt(s, sep, j)
    ensures r.None? ==> forall j :: !OccursAt(s, sep, j)
    decreases |s|
  {
    if |s| < |sep| then None
    else if s[..|sep|] == sep then Some(0)
    else
      assert !OccursAt(s, sep, 0) by { assert s[0..|sep|] == s[..|sep|]; }
      var rest := Find(s[1..], sep);
      assert forall j: nat :: OccursAt(s, sep, j + 1) <==> OccursAt(s[1..], sep, j) by {
        forall j: nat ensures OccursAt(s, sep, j + 1) <==> OccursAt(s[1..], sep, j) {
          OccursAtShift(s, sep, j);
        }
      }
      assert forall j :: OccursAt(s, sep, j) ==> j == 0 || OccursAt(s[1..], sep, j - 1) by {
        forall j | OccursAt(s, sep, j) && j != 0 ensures OccursAt(s[1..], sep, j - 1) {
          OccursAtShift(s, sep, j - 1);
        }
      }
      match rest
      case None => None
      case Some(k) => Some(k + 1)
  }

  /** `sep in s` */
  predicate Contains(s: string, sep: string) {
    Find(s, sep).Some?
  }

  /** `s.startswith(prefix)` holds exactly when `prefix` occurs at the
      front, and then `s` is `prefix` followed by the rest. */
  lemma StartsWithFront(s: string, prefix: string)
    ensures StartsWith(s, prefix) <==> OccursAt(s, prefix, 0)
    ensures StartsWith(s, prefix) ==> s == prefix + s[|prefix|..]
  {
  }

  /** `sep in s` holds exactly when `sep` occurs somewhere in `s`. */
  lemma ContainsIffOccurs(s: string, sep: string)
    ensures Contains(s, sep) <==> exists j :: OccursAt(s, sep, j)
  {
  }

  /** `s.split(sep)[0]`: the text before the first `sep`, or all of `s`. */
  function SplitHead(s: string, sep: string): (r: string)
    requires sep != ""
    ensures |r| <= |s| && r == s[..|r|]
    ensures forall j :: !OccursAt(r, sep, j)
    ensures !Contains(s, sep) ==> r == s
  {
    match Find(s, sep)
    case None => s
    case Some(k) =>
      assert forall j :: OccursAt(s[..k], sep, j) ==> OccursAt(s, sep, j) && j < k by {
        forall j | OccursAt(s[..k], sep, j) ensures OccursAt(s, sep, j) && j < k {
          assert s[..k][j..j + |sep|] == s[j..j + |sep|];
        }
      }
      s[..k]
  }

  /** The text after the first `sep`: what `s.split(sep)[1:]` joins back. */
  function After(s: string, sep: string): (r: string)
    requires sep != "" && Contains(s, sep)
    ensures SplitHead(s, sep) + sep + r == s
  {
    var k := Find(s, sep).value;
    assert s == s[..k] + s[k..k + |sep|] + s[k + |sep|..];
    s[k + |sep|..]
  }

  /** `s.split(sep)[1]`, which exists because `sep in s`. */
  function SplitSecond(s: string, sep: string): (r: string)
    requires sep != "" && Contains(s, sep)
    ensures StartsWith(s, SplitHead(s, sep) + sep + r)
    ensures forall j :: !OccursAt(r, sep, j)
  {
    var after := After(s, sep);
    assert SplitHead(after, sep) == after[..|SplitHead(after, sep)|];
    assert s == SplitHead(s, sep) + sep + after;
    SplitHead(After(s, sep), sep)
  }

  /** A character that never starts a one-character occurrence is absent. */
  lemma CharAbsent(s: string, c: char)
    requires forall j :: !OccursAt(s, [c], j)
    ensures c !in s
  {
    forall i | 0 <= i < |s| ensures s[i] != c {
      assert s[i] == c ==> OccursAt(s, [c], i) by { assert s[i..i + 1] == [s[i]]; }
    }
  }

  /** Python's `str.isspace` for one character: the separators `str.split()`
      splits on (`int()` strips fewer; see `Numerals.IsIntSpace`). */
  predicate IsSpace(c: char) {
    ('\t' <= c <= '\r') || ('\U{1C}' <= c <= ' ') || c == '\U{85}' || c == '\U{A0}'
    || c == '\U{1680}' || ('\U{2000}' <= c <= '\U{200A}') || c == '\U{2028}' || c == '\U{2029}'
    || c == '\U{202F}' || c == '\U{205F}' || c == '\U{3000}'
  }

  /** `s` holds no whitespace character. */
  predicate NoSpace(s: string) {
    forall i :: 0 <= i < |s| ==> !IsSpace(s[i])
  }

  /** `s` with its leading whitespace removed (`s.lstrip()`). */
  function TrimStart(s: string): (r: string)
    ensures |r| <= |s| && r == s[|s| - |r|..]
    ensures r != [] ==> !IsSpace(r[0])
    ensures forall i :: 0 <= i < |s| - |r| ==> IsSpace(s[i])
  {
    if s != [] && IsSpace(s[0]) then TrimStart(s[1..]) else s
  }

  /** The longest prefix of `s` free of whitespace. */
  function TakeWord(s: string): (r: string)
    ensures |r| <= |s| && r == s[..|r|] && NoSpace(r)
    ensures |r| < |s| ==> IsSpace(s[|r|])
  {
    if s == [] || IsSpace(s[0]) then [] else [s[0]] + TakeWord(s[1..])
  }

  /** `s.split()[0]`, or "" where Python's list is empty (and indexing it
      would raise). */
  function FirstToken(s: string): (r: string)
    ensures NoSpace(r)
    ensures r == "" <==> forall i :: 0 <= i < |s| ==> IsSpace(s[i])
  {
    TakeWord(TrimStart(s))
  }

  /** `split()[0]` of a text that opens with a word ends where the word's
      first whitespace character is. */
  lemma FirstTokenCut(s: string, k: nat)
    requires 0 < k < |s| && NoSpace(s[..k]) && IsSpace(s[k])
    ensures FirstToken(s) == s[..k]
  {
    assert !IsSpace(s[..k][0]);
    assert TrimStart(s) == s;
    var w := TakeWord(s);
    assert |w| == k;
  }

  /** `", ".join(parts)` with any separator. */
  function Join(parts: seq<string>, sep: string): (r: string)
    ensures parts == [] ==> r == ""
    ensures parts != [] ==> |r| == TotalLength(parts) + (|parts| - 1) * |sep|
    ensures parts != [] ==> StartsWith(r, parts[0])
  {
    if parts == [] then ""
    else if |parts| == 1 then parts[0]
    else Join(parts[..|parts| - 1], sep) + sep + parts[|parts| - 1]
  }

  /** The combined length of the parts. */
  function TotalLength(parts: seq<string>): nat {
    if parts == [] then 0 else TotalLength(parts[..|parts| - 1]) + |parts[|parts| - 1]|
  }

  /** No occurrence of `sep` starts inside `p` when `sep` is appended to it. */
  predicate NoEarlyMatch(p: string, sep: string) {
    forall j :: 0 <= j < |p| ==> !OccursAt(p + sep, sep, j)
  }

  /** A character that `p` lacks cannot start an occurrence inside `p`. */
  lemma NoEarlyMatchByFirstChar(p: string, sep: string)
    requires sep != ""
    requires forall i :: 0 <= i < |p| ==> p[i] != sep[0]
    ensures NoEarlyMatch(p, sep)
  {
    forall j | 0 <= j < |p| ensures !OccursAt(p + sep, sep, j) {
      assert (p + sep)[j..j + |sep|][0] == p[j];
    }
  }

  /** Splitting `p + sep + q` at its first `sep` gives back `p` and `q`. */
  lemma {:induction false} SplitAtFirst(p: string, sep: string, q: string)
    requires sep != "" && NoEarlyMatch(p, sep)
    ensures Find(p + sep + q, sep) == Some(|p|)
    ensures Contains(p + sep + q, sep)
    ensures SplitHead(p + sep + q, sep) == p
    ensures After(p + sep + q, sep) == q
  {
    var s := p + sep + q;
    assert s[|p|..|p| + |sep|] == sep;
    assert OccursAt(s, sep, |p|);
    forall j | 0 <= j < |p| ensures !OccursAt(s, sep, j) {
      assert !OccursAt(p + sep, sep, j);
      assert s[j..j + |sep|] == (p + sep)[j..j + |sep|];
    }
    var k := Find(s, sep).value;
    assert k == |p|;
    assert s[..k] == p;
    var r := After(s, sep);
    assert p + sep + r == p + sep + q;
    assert r == (p + sep + r)[|p| + |sep|..];
  }

  /** Without its first character `sep` cannot occur, and `split(sep)[0]`
      is the whole of `s`. */
  lemma AbsentByFirstChar(s: string, sep: string)
    requires sep != "" && sep[0] !in s
    ensures !Contains(s, sep)
    ensures SplitHead(s, sep) == s
  {
    forall j | 0 <= j && j + |sep| <= |s| ensures !OccursAt(s, sep, j) {
      assert s[j..j + |sep|][0] == s[j] && s[j] in s;
    }
  }

  /** A non-empty word without whitespace is its own first token. */
  lemma {:induction false} FirstTokenOfWord(s: string)
    requires s != "" && NoSpace(s)
    ensures FirstToken(s) == s
  {
    assert TrimStart(s) == s;
    WordTakesAll(s);
  }

  lemma {:induction false} WordTakesAll(s: string)
    requires NoSpace(s)
    ensures TakeWord(s) == s
  {
    if s != [] {
      WordTakesAll(s[1..]);
      assert [s[0]] + s[1..] == s;
    }
  }
}
