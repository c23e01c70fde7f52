/** String helpers shared by the directory builder and the file preview. */
module Strings {

  /** Python's `str.endswith` for a single suffix. */
  predicate EndsWith(s: string, suffix: string)
  {
    |suffix| <= |s| && s[|s| - |suffix|..] == suffix
  }

  /** Python's `str.endswith` given a tuple of suffixes: true iff one of them ends `s`. */
  function EndsWithAny(s: string, suffixes: seq<string>): (b: bool)
    ensures b <==> exists k :: 0 <= k < |suffixes| && EndsWith(s, suffixes[k])
  {
    if suffixes == [] then false
    else EndsWith(s, suffixes[0]) || EndsWithAny(s, suffixes[1..])
  }

  /**
   * The text after the last occurrence of `sep` in `s`, or all of `s` when `sep`
   * does not occur: the longest suffix of `s` free of `sep`.
   */
  function AfterLast(s: string, sep: char): (r: string)
    ensures sep !in r
    ensures |r| <= |s| && r == s[|s| - |r|..]
    ensures |r| < |s| ==> s[|s| - |r| - 1] == sep
  {
    if s == [] then []
    else if s[|s| - 1] == sep then []
    else AfterLast(s[..|s| - 1], sep) + [s[|s| - 1]]
  }

  /** Any suffix free of `sep` that starts at the string's head or right after a `sep` is the one `AfterLast` returns. */
  lemma AfterLastUnique(s: string, sep: char, t: string)
    requires sep !in t && |t| <= |s| && s[|s| - |t|..] == t
    requires |t| < |s| ==> s[|s| - |t| - 1] == sep
    ensures AfterLast(s, sep) == t
  {
  }

  /** Splitting `stem + [sep] + ext` at its last `sep` gives back `ext` when `ext` holds no `sep`. */
  lemma AfterLastOfJoin(stem: string, sep: char, ext: string)
    requires sep !in ext
    ensures AfterLast(stem + [sep] + ext, sep) == ext
  {
    var s := stem + [sep] + ext;
    assert s[|s| - |ext|..] == ext;
    AfterLastUnique(s, sep, ext);
  }
}
