/** The string operations the trace code uses on file names: `str.lower`,
    `str.endswith`, `str.replace` and `os.path.basename`. */
module Text {

  /** Lower-cases an ASCII letter A-Z and leaves every other character. */
  function LowerChar(c: char): char
  {
    if 'A' <= c <= 'Z' then c - 'A' + 'a' else c
  }

  /** A character lower-cases to a lower-case letter exactly when it is that
      letter or its upper-case form, and to any other character that is not
      an upper-case letter exactly when it is that character. */
  lemma LowerCharIs(c: char, target: char)
    requires !('A' <= target <= 'Z')
    ensures LowerChar(c) == target <==>
      c == target || ('a' <= target <= 'z' && c == target - 'a' + 'A')
  {
  }

  /** `s.lower()` on ASCII text: lower-cases character by character. */
  function ToLower(s: string): (r: string)
    ensures |r| == |s|
    ensures forall i :: 0 <= i < |s| ==> r[i] == LowerChar(s[i])
  {
    if s == [] then []
    else [LowerChar(s[0])] + ToLower(s[1..])
  }

  predicate EndsWith(s: string, suffix: string)
  {
    |suffix| <= |s| && s[|s| - |suffix|..] == suffix
  }

  /** `pat` occurs in `s` starting at index `i`. */
  predicate OccursAt(s: string, pat: string, i: int)
  {
    0 <= i && i + |pat| <= |s| && s[i..i + |pat|] == pat
  }

  /** Python's `s.replace(pat, rep)`: scans left to right and replaces every
      non-overlapping occurrence of `pat` by `rep`. */
  function ReplaceAll(s: string, pat: string, rep: string): string
    requires |pat| > 0
  {
    if |s| < |pat| then s
    else if s[..|pat|] == pat then rep + ReplaceAll(s[|pat|..], pat, rep)
    else [s[0]] + ReplaceAll(s[1..], pat, rep)
  }

  /** A string in which `pat` does not occur is returned unchanged. */
  lemma {:induction false} ReplaceAllAbsent(s: string, pat: string, rep: string)
    requires |pat| > 0
    requires forall i :: !OccursAt(s, pat, i)
    ensures ReplaceAll(s, pat, rep) == s
  {
    if |s| >= |pat| {
      assert !OccursAt(s, pat, 0);
      assert s[0..|pat|] == s[..|pat|];
      forall i ensures !OccursAt(s[1..], pat, i) {
        OccursInTail(s, pat, i);
      }
      ReplaceAllAbsent(s[1..], pat, rep);
      assert s == [s[0]] + s[1..];
    }
  }

  /** An occurrence in `s` without its first character is one in `s`, one
      position further on. */
  lemma OccursInTail(s: string, pat: string, i: int)
    requires |s| > 0
    ensures OccursAt(s[1..], pat, i) ==> OccursAt(s, pat, i + 1)
  {
    if OccursAt(s[1..], pat, i) {
      assert s[1..][i..i + |pat|] == s[i + 1..i + 1 + |pat|];
    }
  }

  /** An occurrence in `a + b` that starts past `a` is one in `b`. */
  lemma OccursAfter(a: string, b: string, pat: string, i: int)
    requires i >= |a|
    ensures OccursAt(a + b, pat, i) ==> OccursAt(b, pat, i - |a|)
  {
    if OccursAt(a + b, pat, i) {
      assert (a + b)[i..i + |pat|] == b[i - |a|..i - |a| + |pat|];
    }
  }

  /** POSIX `os.path.basename`: the part of `path` after its last '/'. */
  function BaseName(path: string): (name: string)
    ensures |name| <= |path| && name == path[|path| - |name|..]
    ensures '/' !in name
    ensures |name| < |path| ==> path[|path| - |name| - 1] == '/'
  {
    if path == [] || path[|path| - 1] == '/' then []
    else
      var init := path[..|path| - 1];
      var rest := BaseName(init);
      assert path == init + [path[|path| - 1]];
      rest + [path[|path| - 1]]
  }
}
