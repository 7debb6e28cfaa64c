/**
 The string helpers the ingestion code relies on from Python's standard
 library, written out: `str.strip()`, `str.replace('\n', ' ')`,
 `str.endswith`, `os.path.join` and `path.split("/")[-1]`.
 */
module Text {

  /** Python's `str.isspace()` for one character: the characters `str.strip()` removes. */
  predicate IsSpace(c: char) {
    c in {' ', '\t', '\n', '\r', '\U{B}', '\U{C}',
          '\U{1C}', '\U{1D}', '\U{1E}', '\U{1F}', '\U{85}', '\U{A0}', '\U{1680}',
          '\U{2000}', '\U{2001}', '\U{2002}', '\U{2003}', '\U{2004}', '\U{2005}',
          '\U{2006}', '\U{2007}', '\U{2008}', '\U{2009}', '\U{200A}',
          '\U{2028}', '\U{2029}', '\U{202F}', '\U{205F}', '\U{3000}'}
  }

  predicate AllSpace(s: string) {
    forall i :: 0 <= i < |s| ==> IsSpace(s[i])
  }

  /** The index of the first non-whitespace character at or after `i`, or `|s|`:
      the scan `str.lstrip()` performs from `i`. */
  function SkipSpace(s: string, i: nat): (j: nat)
    requires i <= |s|
    ensures i <= j <= |s|
    ensures forall k :: i <= k < j ==> IsSpace(s[k])
    ensures j < |s| ==> !IsSpace(s[j])
    decreases |s| - i
  {
    if i < |s| && IsSpace(s[i]) then SkipSpace(s, i + 1) else i
  }

  /** The end of `s[lo..j]` once its trailing whitespace is dropped: the scan
      `str.rstrip()` performs backwards from `j`, stopping at `lo`. */
  function SkipSpaceBack(s: string, lo: nat, j: nat): (k: nat)
    requires lo <= j <= |s|
    ensures lo <= k <= j
    ensures forall m :: k <= m < j ==> IsSpace(s[m])
    ensures lo < k ==> !IsSpace(s[k - 1])
    decreases j - lo
  {
    if lo < j && IsSpace(s[j - 1]) then SkipSpaceBack(s, lo, j - 1) else j
  }

  /** Where the text that `s.strip()` keeps begins. */
  function StripStart(s: string): nat
    ensures StripStart(s) <= |s|
  {
    SkipSpace(s, 0)
  }

  /** `s.strip()`: the slice between the leading and the trailing whitespace.
      It is empty exactly when `s` is all whitespace, and otherwise it starts
      and ends with a non-whitespace character. */
  function Strip(s: string): (r: string)
    ensures StripStart(s) + |r| <= |s| && r == s[StripStart(s)..StripStart(s) + |r|]
    ensures forall k :: 0 <= k < StripStart(s) ==> IsSpace(s[k])
    ensures forall k :: StripStart(s) + |r| <= k < |s| ==> IsSpace(s[k])
    ensures r == [] <==> AllSpace(s)
    ensures r != [] ==> !IsSpace(r[0]) && !IsSpace(r[|r| - 1])
  {
    var lo := StripStart(s);
    var hi := SkipSpaceBack(s, lo, |s|);
    s[lo..hi]
  }

  /** `s.replace('\n', ' ')`. */
  function ReplaceNewlines(s: string): (r: string)
    ensures |r| == |s|
    ensures forall i :: 0 <= i < |s| ==> r[i] == (if s[i] == '\n' then ' ' else s[i])
    decreases |s|
  {
    if s == [] then []
    else [if s[0] == '\n' then ' ' else s[0]] + ReplaceNewlines(s[1..])
  }

  /** A page's text as the ingestion code normalises it before chunking:
      newlines become spaces, then the surrounding whitespace is stripped. */
  function Normalize(s: string): string {
    Strip(ReplaceNewlines(s))
  }

  lemma ReplaceNewlinesKeepsBlankness(s: string)
    ensures AllSpace(ReplaceNewlines(s)) <==> AllSpace(s)
  {
    var t := ReplaceNewlines(s);
    assert forall i :: 0 <= i < |s| ==> (IsSpace(t[i]) <==> IsSpace(s[i]));
  }

  lemma StripKeepsAbsentChar(s: string, c: char)
    requires c !in s
    ensures c !in Strip(s)
  {
  }

  lemma NormalizeHasNoNewline(s: string)
    ensures '\n' !in Normalize(s)
  {
    var t := ReplaceNewlines(s);
    StripKeepsAbsentChar(t, '\n');
  }

  /** The normalised text holds no newline, neither starts nor ends with
      whitespace, and is empty exactly when the raw text is blank, so the
      blank-page test on the raw text and emptiness of the normalised text agree. */
  lemma NormalizeSpec(s: string)
    ensures '\n' !in Normalize(s)
    ensures Normalize(s) != [] ==>
              !IsSpace(Normalize(s)[0]) && !IsSpace(Normalize(s)[|Normalize(s)| - 1])
    ensures Normalize(s) == [] <==> Strip(s) == []
  {
    NormalizeHasNoNewline(s);
    ReplaceNewlinesKeepsBlankness(s);
  }

  predicate EndsWith(s: string, suffix: string) {
    |suffix| <= |s| && s[|s| - |suffix|..] == suffix
  }

  /** `path.split("/")[-1]`: the text after the last `/`, or all of it. */
  function LastSegment(path: string): (r: string)
    ensures '/' !in r
    ensures |r| <= |path| && r == path[|path| - |r|..]
    decreases |path|
  {
    if path == [] || path[|path| - 1] == '/' then []
    else LastSegment(path[..|path| - 1]) + [path[|path| - 1]]
  }

  /** The last segment is all that follows the last `/`: when it is not the
      whole path, the character before it is a `/`. */
  lemma {:induction false} LastSegmentFollowsSlash(path: string)
    ensures var r := LastSegment(path);
            |r| < |path| ==> path[|path| - |r| - 1] == '/'
    decreases |path|
  {
    if path != [] && path[|path| - 1] != '/' {
      var init := path[..|path| - 1];
      LastSegmentFollowsSlash(init);
      assert |LastSegment(path)| == |LastSegment(init)| + 1;
    }
  }

  /** `os.path.join(dir, name)` on POSIX. */
  function Join(dir: string, name: string): string {
    if name != [] && name[0] == '/' then name
    else if dir == [] || dir[|dir| - 1] == '/' then dir + name
    else dir + "/" + name
  }

  lemma LastSegmentSnoc(init: string, c: char)
    requires c != '/'
    ensures LastSegment(init + [c]) == LastSegment(init) + [c]
  {
    assert (init + [c])[..|init|] == init;
  }

  lemma {:induction false} LastSegmentAfterSlash(prefix: string, name: string)
    requires prefix == [] || prefix[|prefix| - 1] == '/'
    requires '/' !in name
    ensures LastSegment(prefix + name) == name
    decreases |name|
  {
    if name == [] {
      assert prefix + name == prefix;
    } else {
      var n := |name| - 1;
      var c := name[n];
      assert name == name[..n] + [c];
      assert prefix + name == (prefix + name[..n]) + [c];
      LastSegmentAfterSlash(prefix, name[..n]);
      LastSegmentSnoc(prefix + name[..n], c);
    }
  }

  /** The name the ingestion code records for a file it found in a directory
      is the file's own name: joining and then taking the last segment loses nothing. */
  lemma LastSegmentOfJoin(dir: string, name: string)
    requires '/' !in name
    ensures LastSegment(Join(dir, name)) == name
  {
    if dir == [] || dir[|dir| - 1] == '/' {
      LastSegmentAfterSlash(dir, name);
    } else {
      assert dir + "/" + name == (dir + "/") + name;
      LastSegmentAfterSlash(dir + "/", name);
    }
  }
}
