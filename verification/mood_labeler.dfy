/**
 * Turning whatever the language model answers into a single mood label:
 * lower-case and trim, delete `(...)` groups, split on `;`, `,`, `/` and on
 * the substrings `but` and `and`, keep the first non-blank piece.
 */
module MoodLabeler {
  import opened Wrappers
  import opened Text
  import opened Llm

  // ---------------------------------------------------------------- re.sub(r"\(.*?\)", "", s)

  /**
   * Where a lazy `.*?\)` ends when started at the front of `t`: the index of
   * the first `)` of `t`, provided no newline comes before it (`.` does not
   * match a newline).
   */
  function LineCloser(t: string): (r: Option<nat>)
    ensures r.Some? ==> r.value < |t| && t[r.value] == ')'
    ensures r.Some? ==> forall k :: 0 <= k < r.value ==> t[k] != '\n' && t[k] != ')'
  {
    if t == [] || t[0] == '\n' then None
    else if t[0] == ')' then Some(0)
    else match LineCloser(t[1..]) {
      case Some(j) => Some(j + 1)
      case None => None
    }
  }

  /** `re.sub(r"\(.*?\)", "", s)`: scanning left to right, each `(` that closes on its line is deleted up to its first `)`. */
  function RemoveParens(s: string): (r: string)
    ensures |r| <= |s|
    ensures NoUpper(s) ==> NoUpper(r)
    decreases |s|
  {
    if s == [] then []
    else if s[0] == '(' && LineCloser(s[1..]).Some? then RemoveParens(s[LineCloser(s[1..]).value + 2..])
    else [s[0]] + RemoveParens(s[1..])
  }

  /** No `(` of `s` has a `)` after it on the same line. */
  predicate NoGroup(s: string)
  {
    forall i :: 0 <= i < |s| && s[i] == '(' ==> LineCloser(s[i + 1..]).None?
  }

  /** `LineCloser` finds nothing exactly when every `)` has a newline before it. */
  lemma {:induction false} LineCloserNone(t: string)
    ensures LineCloser(t).None? <==> forall j :: 0 <= j < |t| && t[j] == ')' ==> '\n' in t[..j]
  {
    if t != [] && t[0] != '\n' && t[0] != ')' {
      LineCloserNone(t[1..]);
      forall j | 1 <= j < |t| ensures ('\n' in t[..j] <==> '\n' in t[1..][..j - 1]) {
        assert t[..j] == [t[0]] + t[1..][..j - 1];
      }
      if LineCloser(t).None? {
        forall j | 0 <= j < |t| && t[j] == ')' ensures '\n' in t[..j] {
          assert t[1..][j - 1] == ')';
        }
      } else {
        var j := LineCloser(t).value;
        assert t[..j] == t[..j];
        assert '\n' !in t[..j];
      }
    } else if t != [] && t[0] == ')' {
      assert t[..0] == [];
    } else if t != [] {
      forall j | 0 <= j < |t| && t[j] == ')' ensures '\n' in t[..j] {
        assert t[..j][0] == '\n';
      }
    }
  }

  /** So a string with `NoGroup` has no `(` followed later by `)` without a newline in between. */
  lemma NoGroupMeans(s: string)
    requires NoGroup(s)
    ensures forall i, j :: 0 <= i < j < |s| && s[i] == '(' && s[j] == ')' ==> '\n' in s[i + 1..j]
  {
    forall i, j | 0 <= i < j < |s| && s[i] == '(' && s[j] == ')' ensures '\n' in s[i + 1..j] {
      LineCloserNone(s[i + 1..]);
      assert s[i + 1..][j - i - 1] == ')';
      assert s[i + 1..][..j - i - 1] == s[i + 1..j];
    }
  }

  /** What `RemoveParens` keeps of a text with no closer on its first line has no closer there either. */
  lemma {:induction false} RemoveParensKeepsUnclosed(t: string)
    requires LineCloser(t).None?
    ensures LineCloser(RemoveParens(t)).None?
    decreases |t|
  {
    if t != [] {
      var x := RemoveParens(t[1..]);
      assert RemoveParens(t) == [t[0]] + x;
      assert ([t[0]] + x)[1..] == x;
      if t[0] != '\n' {
        RemoveParensKeepsUnclosed(t[1..]);
      }
    }
  }

  /** Every group that closes on its line is gone from the result. */
  lemma {:induction false} RemoveParensLeavesNoGroup(s: string)
    ensures NoGroup(RemoveParens(s))
    decreases |s|
  {
    if s == [] {
    } else if s[0] == '(' && LineCloser(s[1..]).Some? {
      RemoveParensLeavesNoGroup(s[LineCloser(s[1..]).value + 2..]);
    } else {
      var x := RemoveParens(s[1..]);
      var r := [s[0]] + x;
      RemoveParensLeavesNoGroup(s[1..]);
      if s[0] == '(' {
        RemoveParensKeepsUnclosed(s[1..]);
      }
      forall i | 0 <= i < |r| && r[i] == '(' ensures LineCloser(r[i + 1..]).None? {
        if i == 0 {
          assert r[1..] == x;
        } else {
          assert r[i + 1..] == x[i..];
        }
      }
    }
  }

  /** A text with no group to delete comes out unchanged. */
  lemma {:induction false} RemoveParensOfClean(s: string)
    requires NoGroup(s)
    ensures RemoveParens(s) == s
    decreases |s|
  {
    if s != [] {
      assert s[0] == '(' ==> LineCloser(s[1..]).None?;
      forall i | 0 <= i < |s[1..]| && s[1..][i] == '(' ensures LineCloser(s[1..][i + 1..]).None? {
        assert s[1..][i + 1..] == s[i + 2..];
      }
      RemoveParensOfClean(s[1..]);
    }
  }

  lemma {:induction false} LineCloserPrefix(t: string, m: nat)
    requires m <= |t| && LineCloser(t).None?
    ensures LineCloser(t[..m]).None?
  {
    if m > 0 && t[0] != '\n' {
      assert t[..m][1..] == t[1..][..m - 1];
      LineCloserPrefix(t[1..], m - 1);
    }
  }

  lemma NoGroupInfix(s: string, r: string)
    requires NoGroup(s) && Contains(s, r)
    ensures NoGroup(r)
  {
    var a :| OccursAt(s, r, a);
    forall i | 0 <= i < |r| && r[i] == '(' ensures LineCloser(r[i + 1..]).None? {
      assert s[a + i] == '(';
      LineCloserPrefix(s[a + i + 1..], |r| - i - 1);
      assert s[a + i + 1..][..|r| - i - 1] == r[i + 1..];
    }
  }

  // ---------------------------------------------------------------- re.split(r"[;,/]|but|and", s)

  /** Length of the separator `[;,/]|but|and` that starts at `s[i]`, or 0 when none does. */
  function SepAt(s: string, i: nat): (n: nat)
    requires i < |s|
    ensures n == 0 || n == 1 || n == 3
    ensures i + n <= |s|
    ensures n == 0 <==> s[i] != ';' && s[i] != ',' && s[i] != '/' && !OccursAt(s, "but", i) && !OccursAt(s, "and", i)
  {
    if s[i] == ';' || s[i] == ',' || s[i] == '/' then 1
    else if OccursAt(s, "but", i) || OccursAt(s, "and", i) then 3
    else 0
  }

  /** No separator starts anywhere in `s`. */
  predicate SepFree(s: string)
  {
    forall j :: 0 <= j < |s| ==> SepAt(s, j) == 0
  }

  /** So a separator-free string has none of `;`, `,`, `/` and no substring `but` or `and`. */
  lemma SepFreeMeans(s: string)
    requires SepFree(s)
    ensures ';' !in s && ',' !in s && '/' !in s
    ensures !Contains(s, "but") && !Contains(s, "and")
  {
    forall i ensures !OccursAt(s, "but", i) && !OccursAt(s, "and", i) {
      if 0 <= i < |s| {
        assert SepAt(s, i) == 0;
      }
    }
    forall i | 0 <= i < |s| ensures s[i] != ';' && s[i] != ',' && s[i] != '/' {
      assert SepAt(s, i) == 0;
    }
  }

  lemma SepFreeInfix(s: string, r: string)
    requires SepFree(s) && Contains(s, r)
    ensures SepFree(r)
  {
    var a :| OccursAt(s, r, a);
    assert r == s[a..a + |r|];
    forall j | 0 <= j < |r| ensures SepAt(r, j) == 0 {
      assert SepAt(s, a + j) == 0;
      assert r[j] == s[a + j];
      if j + 3 <= |r| {
        SliceOfSlice(s, a, |r|, j);
      }
    }
  }

  /**
   * The pieces of `s` from the piece that starts at `start`, scanning from
   * `i`; no separator starts in `s[start..i]`.
   */
  function SplitFrom(s: string, start: nat, i: nat): (ps: seq<string>)
    requires start <= i <= |s|
    ensures |ps| >= 1
    decreases |s| - i
  {
    if i == |s| then [s[start..]]
    else
      var n := SepAt(s, i);
      if n > 0 then [s[start..i]] + SplitFrom(s, i + n, i + n)
      else SplitFrom(s, start, i + 1)
  }

  /** `re.split(r"[;,/]|but|and", s)`. */
  function SplitSeps(s: string): (ps: seq<string>)
    ensures |ps| >= 1
  {
    SplitFrom(s, 0, 0)
  }

  /** Each piece is a substring of `s` in which no separator starts. */
  lemma {:induction false} SplitFromPieces(s: string, start: nat, i: nat)
    requires start <= i <= |s|
    requires forall j :: start <= j < i ==> SepAt(s, j) == 0
    ensures forall k :: 0 <= k < |SplitFrom(s, start, i)| ==>
              SepFree(SplitFrom(s, start, i)[k]) && Contains(s, SplitFrom(s, start, i)[k])
    decreases |s| - i
  {
    var ps := SplitFrom(s, start, i);
    if i == |s| {
      PieceOf(s, start, i);
      assert s[start..] == s[start..i];
    } else if SepAt(s, i) > 0 {
      PieceOf(s, start, i);
      var n := SepAt(s, i);
      SplitFromPieces(s, i + n, i + n);
      assert ps == [s[start..i]] + SplitFrom(s, i + n, i + n);
    } else {
      SplitFromPieces(s, start, i + 1);
    }
  }

  lemma SliceOfSlice(s: string, a: nat, n: nat, j: nat)
    requires a + n <= |s| && j + 3 <= n
    ensures s[a..a + n][j..j + 3] == s[a + j..a + j + 3]
  {
    var x, y := s[a..a + n][j..j + 3], s[a + j..a + j + 3];
    forall k | 0 <= k < 3 ensures x[k] == y[k] {
      assert x[k] == s[a..a + n][j + k];
    }
  }

  lemma PieceOf(s: string, a: nat, b: nat)
    requires a <= b <= |s|
    requires forall j :: a <= j < b ==> SepAt(s, j) == 0
    ensures SepFree(s[a..b]) && Contains(s, s[a..b])
  {
    var r := s[a..b];
    assert OccursAt(s, r, a);
    forall j | 0 <= j < |r| ensures SepAt(r, j) == 0 {
      assert SepAt(s, a + j) == 0;
      if j + 3 <= |r| {
        SliceOfSlice(s, a, b - a, j);
      }
    }
  }

  /** A separator-free string is one piece. */
  lemma {:induction false} SplitFromSepFree(s: string, start: nat, i: nat)
    requires start <= i <= |s| && SepFree(s)
    ensures SplitFrom(s, start, i) == [s[start..]]
    decreases |s| - i
  {
    if i < |s| {
      SplitFromSepFree(s, start, i + 1);
    }
  }

  // ---------------------------------------------------------------- extract_mood_label

  /** Index of the first piece that is not blank, or `|ps|`. */
  function FirstNonBlank(ps: seq<string>): (k: nat)
    ensures k <= |ps|
    ensures forall j :: 0 <= j < k ==> IsBlank(ps[j])
    ensures k < |ps| ==> !IsBlank(ps[k])
  {
    if ps == [] then 0
    else if !IsBlank(ps[0]) then 0
    else 1 + FirstNonBlank(ps[1..])
  }

  /** The text the pieces are cut from: lower-cased, trimmed, groups deleted, trimmed again. */
  function Cleaned(raw: string): string
  {
    Strip(RemoveParens(Strip(Lower(raw))))
  }

  /** The label used when no piece is left. */
  const Neutral: string := "neutral"

  /** The first non-blank piece, trimmed, or `Neutral` when every piece is blank. */
  function FirstLabel(ps: seq<string>): (name: string)
    ensures (forall j :: 0 <= j < |ps| ==> IsBlank(ps[j])) ==> name == Neutral
  {
    var k := FirstNonBlank(ps);
    if k < |ps| then Strip(ps[k]) else Neutral
  }

  /** `extract_mood_label(raw)`. */
  function MoodLabel(raw: string): string
  {
    FirstLabel(SplitSeps(Cleaned(raw)))
  }

  /** The shape of every label: non-empty, trimmed, lower-case, no separator, no closed group. */
  predicate IsLabel(s: string)
  {
    s != [] && Strip(s) == s && NoUpper(s) && SepFree(s) && NoGroup(s)
  }

  lemma NoUpperInfix(s: string, r: string)
    requires NoUpper(s) && Contains(s, r)
    ensures NoUpper(r)
  {
    var a :| OccursAt(s, r, a);
    forall k | 0 <= k < |r| ensures !IsUpper(r[k]) {
      assert r[k] == s[a + k];
    }
  }

  lemma NeutralSepFree()
    ensures SepFree(Neutral)
  {
    var s := Neutral;
    forall j | 0 <= j < |s| ensures SepAt(s, j) == 0 {
      if j + 3 <= |s| {
        assert s[j..j + 3] != "but" && s[j..j + 3] != "and" by {
          assert s[j..j + 3][0] == s[j] && s[j..j + 3][1] == s[j + 1];
        }
      }
    }
  }

  lemma NeutralLetters()
    ensures forall k :: 0 <= k < |Neutral| ==> 'a' <= Neutral[k] <= 'z'
  {
  }

  lemma NeutralIsLabel()
    ensures IsLabel(Neutral)
  {
    NeutralLetters();
    assert !IsSpace(Neutral[0]) && !IsSpace(Neutral[|Neutral| - 1]);
    NeutralSepFree();
  }

  /** `extract_mood_label` always returns a label of that shape. */
  lemma MoodLabelIsLabel(raw: string)
    ensures IsLabel(MoodLabel(raw))
  {
    var t := Strip(Lower(raw));
    var x := RemoveParens(t);
    var u := Strip(x);
    var ps := SplitSeps(u);
    var k := FirstNonBlank(ps);
    if k < |ps| {
      var p := ps[k];
      var name := Strip(p);
      StripIsInfix(Lower(raw));
      NoUpperInfix(Lower(raw), t);
      RemoveParensLeavesNoGroup(t);
      StripIsInfix(x);
      NoUpperInfix(x, u);
      NoGroupInfix(x, u);
      SplitFromPieces(u, 0, 0);
      StripIsInfix(p);
      NoUpperInfix(u, p);
      NoUpperInfix(p, name);
      NoGroupInfix(u, p);
      NoGroupInfix(p, name);
      SepFreeInfix(p, name);
      StripOfStripped(p);
      BlankIffStripEmpty(p);
    } else {
      NeutralIsLabel();
    }
  }

  /** A label goes through unchanged. */
  lemma MoodLabelOfLabel(s: string)
    requires IsLabel(s)
    ensures MoodLabel(s) == s
  {
    assert Lower(s) == s;
    BlankIffStripEmpty(s);
    RemoveParensOfClean(s);
    SplitFromSepFree(s, 0, 0);
    assert s[0..] == s;
  }

  /** `extract_mood_label` is idempotent. */
  lemma MoodLabelIdempotent(raw: string)
    ensures MoodLabel(MoodLabel(raw)) == MoodLabel(raw)
  {
    MoodLabelIsLabel(raw);
    MoodLabelOfLabel(MoodLabel(raw));
  }

  /**
   * When the lower-cased, trimmed input is non-empty and has no group and no
   * separator, it is the label.
   */
  lemma MoodLabelOfCleanInput(raw: string)
    requires Strip(Lower(raw)) != [] && NoGroup(Strip(Lower(raw))) && SepFree(Strip(Lower(raw)))
    ensures MoodLabel(raw) == Strip(Lower(raw))
  {
    var t := Strip(Lower(raw));
    RemoveParensOfClean(t);
    StripOfStripped(Lower(raw));
    BlankIffStripEmpty(t);
    SplitFromSepFree(t, 0, 0);
    assert t[0..] == t;
  }

  /** Blank input gives `Neutral`. */
  lemma MoodLabelOfBlank(raw: string)
    requires IsBlank(raw)
    ensures MoodLabel(raw) == Neutral
  {
    BlankIffStripEmpty(Lower(raw));
    assert Cleaned(raw) == [];
    assert SplitSeps([]) == [[]];
  }

  // ---------------------------------------------------------------- detect_mood

  /** `detect_mood`: the label of the answer, or `"neutral"` when the model call fails. */
  function DetectMood(llm: Prompt -> Reply, text: string): (mood: string)
    ensures IsLabel(mood)
    ensures Generate(llm, MoodPrompt(text)).Unavailable? ==> mood == Neutral
    ensures Generate(llm, MoodPrompt(text)).Answer? ==> mood == MoodLabel(Generate(llm, MoodPrompt(text)).text)
  {
    match Generate(llm, MoodPrompt(text))
    case Answer(answer) =>
      MoodLabelIsLabel(answer);
      MoodLabel(answer)
    case Unavailable =>
      NeutralIsLabel();
      Neutral
  }
}
