/** `PurePosixPath(p).name` and `.suffix`, which pick the handler for an uploaded file. */
module Paths {
  import opened Text

  /** The last segment that is neither empty nor `.`, or `""` when there is none. */
  function LastSegment(segs: seq<string>): (n: string)
    ensures n == [] || n in segs
    ensures n != "."
  {
    if segs == [] then []
    else if segs[|segs| - 1] == [] || segs[|segs| - 1] == "." then LastSegment(segs[..|segs| - 1])
    else segs[|segs| - 1]
  }

  /** `PurePosixPath(p).name`: empty and `.` segments are dropped, so `a/b/` and `a/b/.` name `b`. */
  function Name(p: string): (n: string)
    ensures '/' !in n
  {
    LastSegment(SplitOn(p, '/'))
  }

  /** `s.rfind(c)`: the last index of `c`, or -1. */
  function LastIndex(s: string, c: char): (i: int)
    ensures -1 <= i < |s|
    ensures i >= 0 ==> s[i] == c
    ensures forall k :: i < k < |s| ==> s[k] != c
  {
    if s == [] then -1
    else if s[|s| - 1] == c then |s| - 1
    else LastIndex(s[..|s| - 1], c)
  }

  /**
   * `.suffix` of a name: from the last dot on, unless that dot is the first
   * character (a hidden file) or the last one (a trailing dot).
   */
  function Suffix(name: string): (r: string)
    ensures r == [] || (2 <= |r| < |name| && r == name[|name| - |r|..] && r[0] == '.' && '.' !in r[1..])
  {
    var i := LastIndex(name, '.');
    if 0 < i < |name| - 1 then name[i..] else []
  }

  /** `Path(p).suffix.lower()`. */
  function Extension(p: string): (e: string)
    ensures |e| == |Suffix(Name(p))| && NoUpper(e)
    ensures e == [] || (2 <= |e| && e[0] == '.' && '.' !in e[1..])
    ensures NoUpper(Suffix(Name(p))) ==> e == Suffix(Name(p))
  {
    var s := Suffix(Name(p));
    assert forall k :: 0 <= k < |s| ==> Lower(s)[k] == LowerChar(s[k]);
    Lower(s)
  }

  /** A non-empty stem followed by a dot and dot-free text has that dot and text as its suffix. */
  lemma SuffixOfStemAndExt(stem: string, ext: string)
    requires stem != [] && |ext| >= 2 && ext[0] == '.' && '.' !in ext[1..]
    ensures Suffix(stem + ext) == ext
  {
    var name := stem + ext;
    var i := LastIndex(name, '.');
    assert name[|stem|] == '.';
    forall k | |stem| < k < |name| ensures name[k] != '.' {
      assert name[k] == ext[1..][k - |stem| - 1];
    }
    assert i == |stem|;
    assert name[i..] == ext;
  }
}
