/**
 * The parts of Python's `str` that the journaling backend relies on:
 * whitespace, `strip()`, `strip(chars)`, `split()`, `split(sep)`, `join`,
 * `lower()`, `title()`, substring search and the ordering `sorted()` uses.
 * Case mapping is modelled for ASCII letters only.
 */
module Text {

  /** The characters Python's `str.isspace()`, `str.split()` and `str.strip()` treat as whitespace. */
  predicate IsSpace(c: char)
  {
    || '\t' <= c <= '\r'
    || '\U{001C}' <= c <= ' '
    || c == '\U{0085}' || c == '\U{00A0}' || c == '\U{1680}'
    || '\U{2000}' <= c <= '\U{200A}'
    || c == '\U{2028}' || c == '\U{2029}' || c == '\U{202F}' || c == '\U{205F}' || c == '\U{3000}'
  }

  // ---------------------------------------------------------------- strip

  /** `s.lstrip(chars)` where `drop` tells which characters are to be removed. */
  function TrimStart(s: string, drop: char -> bool): (r: string)
    ensures |r| <= |s| && r == s[|s| - |r|..]
    ensures r != [] ==> !drop(r[0])
    ensures forall k :: 0 <= k < |s| - |r| ==> drop(s[k])
  {
    if s != [] && drop(s[0]) then
      var r := TrimStart(s[1..], drop);
      assert s[1..][|s| - 1 - |r|..] == s[|s| - |r|..];
      r
    else s
  }

  /** The first index at or after `i` whose character `drop` does not select, or `|s|`. */
  function SkipForward(s: string, drop: char -> bool, i: nat): (j: nat)
    requires i <= |s|
    ensures i <= j <= |s|
    ensures forall k :: i <= k < j ==> drop(s[k])
    ensures j < |s| ==> !drop(s[j])
    decreases |s| - i
  {
    if i < |s| && drop(s[i]) then SkipForward(s, drop, i + 1) else i
  }

  /** Moving down from `j`, but not below `lo`, past characters `drop` selects. */
  function SkipBackward(s: string, drop: char -> bool, lo: nat, j: nat): (e: nat)
    requires lo <= j <= |s|
    ensures lo <= e <= j
    ensures forall k :: e <= k < j ==> drop(s[k])
    ensures e > lo ==> !drop(s[e - 1])
    decreases j
  {
    if j > lo && drop(s[j - 1]) then SkipBackward(s, drop, lo, j - 1) else j
  }

  /** Where the result of `StripChars(s, drop)` starts inside `s`. */
  function StripStart(s: string, drop: char -> bool): nat
  {
    SkipForward(s, drop, 0)
  }

  /**
   * `s.strip(chars)`: the infix of `s` left after removing every leading and
   * trailing character that `drop` selects; nothing in the interior changes.
   */
  function StripChars(s: string, drop: char -> bool): (r: string)
    ensures StripStart(s, drop) + |r| <= |s|
    ensures r == s[StripStart(s, drop)..StripStart(s, drop) + |r|]
    ensures forall k :: 0 <= k < StripStart(s, drop) ==> drop(s[k])
    ensures forall k :: StripStart(s, drop) + |r| <= k < |s| ==> drop(s[k])
    ensures r != [] ==> !drop(r[0]) && !drop(r[|r| - 1])
    ensures s == [] || (!drop(s[0]) && !drop(s[|s| - 1])) ==> r == s
  {
    var a := StripStart(s, drop);
    s[a..SkipBackward(s, drop, a, |s|)]
  }

  /** `s.strip()` with no argument. */
  function Strip(s: string): (r: string)
    ensures |r| <= |s|
  {
    StripChars(s, IsSpace)
  }

  /** A stripped text neither starts nor ends with whitespace, and a text that does neither is its own strip. */
  lemma StripEnds(s: string)
    ensures var r := Strip(s); r != [] ==> !IsSpace(r[0]) && !IsSpace(r[|r| - 1])
    ensures s == [] || (!IsSpace(s[0]) && !IsSpace(s[|s| - 1])) ==> Strip(s) == s
  {
  }

  /** The string is empty or all whitespace. */
  predicate IsBlank(s: string)
  {
    forall k :: 0 <= k < |s| ==> IsSpace(s[k])
  }

  /** `not s.strip()` holds exactly for blank strings. */
  lemma BlankIffStripEmpty(s: string)
    ensures IsBlank(s) <==> Strip(s) == []
  {
    var r := Strip(s);
    if r == [] {
      assert StripStart(s, IsSpace) == |s|;
    } else {
      assert s[StripStart(s, IsSpace)] == r[0];
    }
  }

  lemma StripOfStripped(s: string)
    ensures Strip(Strip(s)) == Strip(s)
  {
  }

  // ---------------------------------------------------------------- infixes

  /** `pat` occurs in `s` starting at index `i`. */
  predicate OccursAt(s: string, pat: string, i: int)
  {
    0 <= i && i + |pat| <= |s| && s[i..i + |pat|] == pat
  }

  /** `pat in s` for strings: `pat` is a contiguous substring of `s`. */
  ghost predicate Contains(s: string, pat: string)
  {
    exists i :: OccursAt(s, pat, i)
  }

  lemma StripIsInfix(s: string)
    ensures Contains(s, Strip(s))
  {
    assert OccursAt(s, Strip(s), StripStart(s, IsSpace));
  }

  lemma InfixTransitive(a: string, b: string, c: string)
    requires Contains(b, a) && Contains(c, b)
    ensures Contains(c, a)
  {
    var i :| OccursAt(b, a, i);
    var j :| OccursAt(c, b, j);
    assert forall k :: 0 <= k < |a| ==> c[j + i + k] == b[i + k] == a[k];
    assert c[j + i..j + i + |a|] == a;
    assert OccursAt(c, a, j + i);
  }

  // ---------------------------------------------------------------- split() and ' '.join

  /** A word of `str.split()`: non-empty, no whitespace. */
  predicate IsWord(w: string)
  {
    w != [] && forall k :: 0 <= k < |w| ==> !IsSpace(w[k])
  }

  /** Length of the leading run of non-whitespace characters of `s`. */
  function WordEnd(s: string): (n: nat)
    ensures n <= |s|
    ensures forall k :: 0 <= k < n ==> !IsSpace(s[k])
    ensures n < |s| ==> IsSpace(s[n])
  {
    if s == [] || IsSpace(s[0]) then 0 else 1 + WordEnd(s[1..])
  }

  /** `s.split()`: the maximal runs of non-whitespace characters of `s`, in order. */
  function Words(s: string): (ws: seq<string>)
    ensures forall k :: 0 <= k < |ws| ==> IsWord(ws[k])
    decreases |s|
  {
    var t := TrimStart(s, IsSpace);
    if t == [] then [] else
      var n := WordEnd(t);
      assert n >= 1 by { assert !IsSpace(t[0]); }
      var w := t[..n];
      assert IsWord(w);
      [w] + Words(t[n..])
  }

  /** `sep.join(ps)`. */
  function Join(ps: seq<string>, sep: string): (r: string)
  {
    if ps == [] then ""
    else if |ps| == 1 then ps[0]
    else ps[0] + sep + Join(ps[1..], sep)
  }

  lemma JoinStartsWithHead(ps: seq<string>, sep: string)
    requires ps != []
    ensures |ps[0]| <= |Join(ps, sep)| && Join(ps, sep)[..|ps[0]|] == ps[0]
  {
  }

  lemma WordEndOfWord(w: string, rest: string)
    requires IsWord(w)
    requires rest == [] || IsSpace(rest[0])
    ensures WordEnd(w + rest) == |w|
    decreases |w|
  {
    if |w| > 1 {
      assert (w + rest)[1..] == w[1..] + rest;
      WordEndOfWord(w[1..], rest);
    } else {
      assert (w + rest)[1..] == rest;
    }
  }

  /** Leading whitespace never changes the words. */
  lemma WordsSkipSpace(s: string)
    requires s != [] && IsSpace(s[0])
    ensures Words(s) == Words(s[1..])
  {
  }

  /** A single word splits into itself. */
  lemma WordsOfWord(w: string)
    requires IsWord(w)
    ensures Words(w) == [w]
  {
    WordEndOfWord(w, []);
    assert w + [] == w;
    assert TrimStart(w, IsSpace) == w;
    assert w[..|w|] == w;
    assert w[|w|..] == [];
  }

  /** A word followed by a space: the word comes first, then the words of the rest. */
  lemma WordsOfWordThenSpace(w: string, j: string)
    requires IsWord(w)
    ensures Words(w + " " + j) == [w] + Words(j)
  {
    var s := w + " " + j;
    WordEndOfWord(w, " " + j);
    assert s == w + (" " + j);
    assert TrimStart(s, IsSpace) == s;
    assert s[..|w|] == w;
    assert s[|w|..] == " " + j;
    WordsSkipSpace(" " + j);
    assert (" " + j)[1..] == j;
  }

  /** The words of a join of two or more words: the first word, then the words of the join of the rest. */
  lemma WordsOfJoinStep(ws: seq<string>)
    requires |ws| >= 2 && IsWord(ws[0])
    ensures Words(Join(ws, " ")) == [ws[0]] + Words(Join(ws[1..], " "))
  {
    assert Join(ws, " ") == ws[0] + " " + Join(ws[1..], " ");
    WordsOfWordThenSpace(ws[0], Join(ws[1..], " "));
  }

  /** Joining words with single spaces and splitting again gives the same words. */
  lemma WordsOfJoin(ws: seq<string>)
    requires forall k :: 0 <= k < |ws| ==> IsWord(ws[k])
    ensures Words(Join(ws, " ")) == ws
  {
    WordsOfJoinFrom(ws, 0);
    assert ws[0..] == ws;
  }

  /** `WordsOfJoin` for the words from index `i` on, by induction on the number left. */
  lemma {:induction false} WordsOfJoinFrom(ws: seq<string>, i: nat)
    requires i <= |ws| && forall k :: 0 <= k < |ws| ==> IsWord(ws[k])
    ensures Words(Join(ws[i..], " ")) == ws[i..]
    decreases |ws| - i
  {
    var t := ws[i..];
    assert |t| > 0 ==> t[0] == ws[i];
    if |t| == 1 {
      WordsOfWord(t[0]);
    } else if |t| >= 2 {
      WordsOfJoinStep(t);
      assert t[1..] == ws[i + 1..];
      WordsOfJoinFrom(ws, i + 1);
      HeadTail(t);
    }
  }

  /** Dropping the first element of `[x] + s` gives `s`. */
  lemma TailOfCons<T>(x: T, s: seq<T>)
    ensures ([x] + s)[1..] == s
  {
  }

  /** A non-empty sequence is its head followed by its tail. */
  lemma HeadTail<T>(s: seq<T>)
    requires s != []
    ensures s == [s[0]] + s[1..]
  {
  }

  // ---------------------------------------------------------------- split(sep) and sep.join

  /** `s.split(sep)` for a one-character separator: every separator cuts, so empty pieces are kept. */
  function SplitOn(s: string, sep: char): (ps: seq<string>)
    ensures |ps| >= 1
    ensures forall k :: 0 <= k < |ps| ==> sep !in ps[k]
    decreases |s|
  {
    if s == [] then [""]
    else if s[0] == sep then [""] + SplitOn(s[1..], sep)
    else
      var rest := SplitOn(s[1..], sep);
      [[s[0]] + rest[0]] + rest[1..]
  }

  /** Splitting and re-joining with the same separator gives the string back. */
  lemma {:induction false} JoinSplitOn(s: string, sep: char)
    ensures Join(SplitOn(s, sep), [sep]) == s
    decreases |s|
  {
    if s == [] {
    } else if s[0] == sep {
      JoinSplitOn(s[1..], sep);
      var rest := SplitOn(s[1..], sep);
      assert SplitOn(s, sep) == [""] + rest;
      assert ([""] + rest)[1..] == rest;
    } else {
      JoinSplitOn(s[1..], sep);
      var rest := SplitOn(s[1..], sep);
      var ps := [[s[0]] + rest[0]] + rest[1..];
      assert SplitOn(s, sep) == ps;
      if |rest| == 1 {
      } else {
        assert ps[1..] == rest[1..];
        assert Join(rest, [sep]) == rest[0] + [sep] + Join(rest[1..], [sep]);
      }
    }
  }

  /** Joining separator-free pieces and splitting again gives the pieces back. */
  lemma {:induction false} SplitOnJoin(ps: seq<string>, sep: char)
    requires ps != []
    requires forall k :: 0 <= k < |ps| ==> sep !in ps[k]
    ensures SplitOn(Join(ps, [sep]), sep) == ps
    decreases |ps|, |ps[0]|
  {
    var p := ps[0];
    if p == [] {
      if |ps| == 1 {
      } else {
        assert Join(ps, [sep]) == [sep] + Join(ps[1..], [sep]);
        SplitOnJoin(ps[1..], sep);
        assert ([sep] + Join(ps[1..], [sep]))[1..] == Join(ps[1..], [sep]);
      }
    } else {
      var qs := [p[1..]] + ps[1..];
      assert qs[1..] == ps[1..];
      assert p[1..] == p[1..] && forall k :: 0 <= k < |p[1..]| ==> p[1..][k] == p[k + 1];
      assert sep !in p[1..];
      SplitOnJoin(qs, sep);
      if |ps| == 1 {
        assert Join(ps, [sep]) == p;
        assert Join(qs, [sep]) == p[1..];
      } else {
        assert Join(ps, [sep]) == p + [sep] + Join(ps[1..], [sep]);
        assert Join(qs, [sep]) == p[1..] + [sep] + Join(ps[1..], [sep]);
        assert Join(ps, [sep])[1..] == Join(qs, [sep]);
      }
      assert Join(ps, [sep])[0] == p[0];
      assert [p[0]] + p[1..] == p;
    }
  }

  /** A separator-free piece followed by the separator is split off as one piece. */
  lemma {:induction false} SplitOnAfterPiece(p: string, sep: char, s: string)
    requires sep !in p
    ensures SplitOn(p + [sep] + s, sep) == [p] + SplitOn(s, sep)
    decreases |p|
  {
    if p == [] {
      assert ([] + [sep] + s)[1..] == s;
    } else {
      assert sep !in p[1..] by {
        forall k | 0 <= k < |p[1..]| ensures p[1..][k] != sep {
          assert p[1..][k] == p[k + 1];
        }
      }
      SplitOnAfterPiece(p[1..], sep, s);
      assert (p + [sep] + s)[1..] == p[1..] + [sep] + s;
      assert [p[0]] + p[1..] == p;
    }
  }

  /**
   * `(sep + " ").join(ps)` split on `sep`: the pieces come back, each one
   * after the first led by the space of the separator.
   */
  lemma {:induction false} SplitOnJoinSpaced(ps: seq<string>, sep: char)
    requires ps != [] && sep != ' '
    requires forall k :: 0 <= k < |ps| ==> sep !in ps[k]
    ensures var qs := SplitOn(Join(ps, [sep, ' ']), sep);
      |qs| == |ps| && qs[0] == ps[0] && forall k :: 1 <= k < |ps| ==> qs[k] == " " + ps[k]
    decreases |ps|
  {
    if |ps| == 1 {
      SplitOnJoin(ps, sep);
    } else {
      var tail := Join(ps[1..], [sep, ' ']);
      SplitOnJoinSpaced(ps[1..], sep);
      var rs := SplitOn(tail, sep);
      assert Join(ps, [sep, ' ']) == ps[0] + [sep] + (" " + tail);
      SplitOnAfterPiece(ps[0], sep, " " + tail);
      assert (" " + tail)[1..] == tail;
      assert SplitOn(" " + tail, sep) == [" " + rs[0]] + rs[1..];
    }
  }

  // ---------------------------------------------------------------- case (ASCII)

  predicate IsUpper(c: char)
  {
    'A' <= c <= 'Z'
  }

  predicate IsLowerLetter(c: char)
  {
    'a' <= c <= 'z'
  }

  predicate IsLetter(c: char)
  {
    IsUpper(c) || IsLowerLetter(c)
  }

  function LowerChar(c: char): (d: char)
    ensures !IsUpper(d)
    ensures !IsUpper(c) ==> d == c
    ensures IsLetter(d) <==> IsLetter(c)
  {
    if IsUpper(c) then (c as int + 32) as char else c
  }

  function UpperChar(c: char): (d: char)
    ensures !IsLowerLetter(d)
    ensures !IsLowerLetter(c) ==> d == c
    ensures IsLetter(d) <==> IsLetter(c)
  {
    if IsLowerLetter(c) then (c as int - 32) as char else c
  }

  /** The string holds no upper-case ASCII letter. */
  predicate NoUpper(s: string)
  {
    forall k :: 0 <= k < |s| ==> !IsUpper(s[k])
  }

  /** `s.lower()`, for ASCII letters. */
  function Lower(s: string): (r: string)
    ensures |r| == |s| && NoUpper(r)
    ensures forall k :: 0 <= k < |s| ==> (IsSpace(r[k]) <==> IsSpace(s[k]))
    ensures NoUpper(s) ==> r == s
  {
    seq(|s|, k requires 0 <= k < |s| => LowerChar(s[k]))
  }

  /** Lower-casing keeps every character's whitespace class, so a trimmed string stays trimmed. */
  lemma LowerKeepsStripped(s: string)
    requires Strip(s) == s
    ensures Strip(Lower(s)) == Lower(s)
  {
    var r := Lower(s);
    if s != [] {
      assert !IsSpace(s[0]) && !IsSpace(s[|s| - 1]);
      assert !IsSpace(r[0]) && !IsSpace(r[|r| - 1]);
    }
  }

  /**
   * `s.title()`, for ASCII letters: a letter that follows a letter is
   * lower-cased, any other letter is upper-cased.
   */
  function Title(s: string): (r: string)
    ensures |r| == |s|
    ensures forall k :: 0 <= k < |s| ==> (IsLetter(r[k]) <==> IsLetter(s[k]))
    ensures forall k :: 0 <= k < |s| && !IsLetter(s[k]) ==> r[k] == s[k]
  {
    seq(|s|, k requires 0 <= k < |s| =>
      if k > 0 && IsLetter(s[k - 1]) then LowerChar(s[k]) else UpperChar(s[k]))
  }

  /** Title-casing a title-cased string changes nothing. */
  lemma TitleIdempotent(s: string)
    ensures Title(Title(s)) == Title(s)
  {
    var t := Title(s);
    forall k | 0 <= k < |s| ensures Title(t)[k] == t[k] {
      if k > 0 && IsLetter(s[k - 1]) {
        assert IsLetter(t[k - 1]);
      }
    }
  }

  /** Whitespace is left where it is, so title-casing keeps a trimmed string trimmed. */
  lemma TitleKeepsStripped(s: string)
    requires Strip(s) == s
    ensures Strip(Title(s)) == Title(s)
  {
    var t := Title(s);
    if s != [] {
      assert !IsSpace(s[0]) && !IsSpace(s[|s| - 1]);
      assert IsLetter(s[0]) || t[0] == s[0];
      assert IsLetter(s[|s| - 1]) || t[|s| - 1] == s[|s| - 1];
    }
  }

  // ---------------------------------------------------------------- ordering

  /** Python's `<` on `str`: lexicographic by code point. */
  predicate Less(a: string, b: string)
  {
    if a == [] then b != []
    else if b == [] then false
    else a[0] < b[0] || (a[0] == b[0] && Less(a[1..], b[1..]))
  }

  lemma LessIrreflexive(a: string)
    ensures !Less(a, a)
  {
  }

  lemma {:induction false} LessTransitive(a: string, b: string, c: string)
    requires Less(a, b) && Less(b, c)
    ensures Less(a, c)
    decreases |a|
  {
    if a != [] && b != [] && c != [] && a[0] == b[0] == c[0] {
      LessTransitive(a[1..], b[1..], c[1..]);
    }
  }

  lemma {:induction false} LessTotal(a: string, b: string)
    ensures a == b || Less(a, b) || Less(b, a)
    decreases |a|
  {
    if a != [] && b != [] && a[0] == b[0] {
      LessTotal(a[1..], b[1..]);
      if a[1..] == b[1..] {
        assert a == [a[0]] + a[1..] && b == [b[0]] + b[1..];
      }
    }
  }

  lemma LessAsymmetric(a: string, b: string)
    requires Less(a, b)
    ensures !Less(b, a)
  {
    if Less(b, a) {
      LessTransitive(a, b, a);
      LessIrreflexive(a);
    }
  }
}
