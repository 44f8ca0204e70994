/**
 * Tag generation for imported entries: the model's answer with newlines
 * removed, then trimmed of whitespace, then of commas. A failed model call
 * becomes a `ValueError`.
 */
module Tagger {
  import opened Wrappers
  import opened Text
  import opened Llm

  /** The exception `auto_generate_tags` raises in place of a failed model call. */
  datatype Error = ValueError(message: string)

  /** `s.replace("\n", "")`. */
  function RemoveNewlines(s: string): (r: string)
    ensures '\n' !in r
    ensures |r| <= |s|
    ensures '\n' !in s ==> r == s
  {
    if s == [] then []
    else if s[0] == '\n' then RemoveNewlines(s[1..])
    else [s[0]] + RemoveNewlines(s[1..])
  }

  /** Replacing is splitting on the newline and joining the pieces with nothing in between. */
  lemma {:induction false} RemoveNewlinesIsSplitJoin(s: string)
    ensures RemoveNewlines(s) == Join(SplitOn(s, '\n'), "")
  {
    if s != [] {
      RemoveNewlinesIsSplitJoin(s[1..]);
      var rest := SplitOn(s[1..], '\n');
      if s[0] == '\n' {
        assert SplitOn(s, '\n') == [""] + rest;
        JoinEmptyHead(rest);
      } else {
        assert SplitOn(s, '\n') == [[s[0]] + rest[0]] + rest[1..];
        JoinConsHead(s[0], rest);
      }
    }
  }

  lemma JoinEmptyHead(rest: seq<string>)
    requires |rest| >= 1
    ensures Join([""] + rest, "") == Join(rest, "")
  {
    assert ([""] + rest)[1..] == rest;
  }

  lemma JoinConsHead(c: char, rest: seq<string>)
    requires |rest| >= 1
    ensures Join([[c] + rest[0]] + rest[1..], "") == [c] + Join(rest, "")
  {
    if |rest| > 1 {
      JoinConsHeadMany(c, rest[0], rest[1..]);
      assert rest == [rest[0]] + rest[1..];
    }
  }

  lemma JoinConsHeadMany(c: char, p: string, more: seq<string>)
    requires |more| >= 1
    ensures Join([[c] + p] + more, "") == [c] + Join([p] + more, "")
  {
    JoinCons([c] + p, more, "");
    JoinCons(p, more, "");
    ConsAppend(c, p, "", Join(more, ""));
  }

  lemma ConsAppend<T>(x: T, a: seq<T>, b: seq<T>, d: seq<T>)
    ensures [x] + a + b + d == [x] + (a + b + d)
  {
  }

  /** Joining two or more pieces: the first one, the separator, then the rest joined. */
  lemma JoinCons(x: string, more: seq<string>, sep: string)
    requires |more| >= 1
    ensures Join([x] + more, sep) == x + sep + Join(more, sep)
  {
    TailOfCons(x, more);
  }

  predicate IsComma(c: char)
  {
    c == ','
  }

  /** `response.replace("\n", "").strip().strip(",")`. */
  function PostProcess(response: string): (tags: string)
    ensures '\n' !in tags
    ensures tags != [] ==> tags[0] != ',' && tags[|tags| - 1] != ','
  {
    StripChars(Strip(RemoveNewlines(response)), IsComma)
  }

  predicate IsSpaceOrComma(c: char)
  {
    IsSpace(c) || c == ','
  }

  /** `r` sits at `i` in `s`, with nothing but whitespace and commas before and after it. */
  predicate EndsCut(s: string, r: string, i: nat)
  {
    OccursAt(s, r, i)
    && (forall k :: 0 <= k < i ==> IsSpaceOrComma(s[k]))
    && (forall k :: i + |r| <= k < |s| ==> IsSpaceOrComma(s[k]))
  }

  /** Only the ends of the newline-free answer are cut; the inside is untouched. */
  lemma PostProcessCutsOnlyEnds(response: string)
    ensures EndsCut(RemoveNewlines(response), PostProcess(response),
                    StripStart(RemoveNewlines(response), IsSpace) + StripStart(Strip(RemoveNewlines(response)), IsComma))
  {
    var s := RemoveNewlines(response);
    assert Strip(s) == StripChars(s, IsSpace);
    CutInfix(s);
    CutFront(s);
    CutBack(s);
  }

  lemma CutInfix(s: string)
    ensures var u := StripChars(s, IsSpace);
      OccursAt(s, StripChars(u, IsComma), StripStart(s, IsSpace) + StripStart(u, IsComma))
  {
    var u := StripChars(s, IsSpace);
    var r := StripChars(u, IsComma);
    var a, b := StripStart(s, IsSpace), StripStart(u, IsComma);
    assert OccursAt(s, u, a);
    assert OccursAt(u, r, b);
    OccursAtCompose(s, u, r, a, b);
  }

  lemma CutFront(s: string)
    ensures forall k :: 0 <= k < StripStart(s, IsSpace) + StripStart(Strip(s), IsComma) ==> IsSpaceOrComma(s[k])
  {
    var u := StripChars(s, IsSpace);
    var a := StripStart(s, IsSpace);
    forall k | 0 <= k < a + StripStart(u, IsComma) ensures IsSpaceOrComma(s[k]) {
      if k < a {
        assert IsSpace(s[k]);
      } else {
        SliceAt(s, a, |u|, k - a);
        assert IsComma(u[k - a]);
      }
    }
  }

  lemma CutBack(s: string)
    ensures forall k :: StripStart(s, IsSpace) + StripStart(Strip(s), IsComma) + |StripChars(Strip(s), IsComma)| <= k < |s|
              ==> IsSpaceOrComma(s[k])
  {
    var u := StripChars(s, IsSpace);
    var a := StripStart(s, IsSpace);
    forall k | a + StripStart(u, IsComma) + |StripChars(u, IsComma)| <= k < |s| ensures IsSpaceOrComma(s[k]) {
      if k < a + |u| {
        SliceAt(s, a, |u|, k - a);
        assert IsComma(u[k - a]);
      } else {
        assert IsSpace(s[k]);
      }
    }
  }

  lemma OccursAtCompose(s: string, u: string, r: string, a: nat, b: nat)
    requires OccursAt(s, u, a) && OccursAt(u, r, b)
    ensures OccursAt(s, r, a + b)
  {
    forall k | 0 <= k < |r| ensures r[k] == s[a + b + k] {
      assert r[k] == u[b + k];
    }
  }

  lemma SliceAt(s: string, a: nat, n: nat, k: nat)
    requires a + n <= |s| && k < n
    ensures s[a..a + n][k] == s[a + k]
  {
  }

  /** An answer that is already clean comes back unchanged. */
  lemma PostProcessOfClean(response: string)
    requires '\n' !in response
    requires response != [] ==> !IsSpace(response[0]) && !IsSpace(response[|response| - 1])
    requires response != [] ==> response[0] != ',' && response[|response| - 1] != ','
    ensures PostProcess(response) == response
  {
  }

  /**
   * Trimming whitespace before commas can leave whitespace at the front, so
   * post-processing is not idempotent.
   */
  lemma PostProcessExample()
    ensures PostProcess(", a\n") == " a"
    ensures PostProcess(PostProcess(", a\n")) == "a"
  {
    assert RemoveNewlines(", a\n") == ", a";
    assert !IsSpace(',') && !IsSpace('a');
    assert Strip(", a") == ", a";
    assert StripStart(", a", IsComma) == 1;
    assert StripChars(", a", IsComma) == " a";
    assert RemoveNewlines(" a") == " a";
    assert StripStart(" a", IsSpace) == 1;
    assert Strip(" a") == "a";
  }

  /** `auto_generate_tags`: the post-processed answer, or `ValueError` when the model call fails. */
  function AutoGenerateTags(llm: Prompt -> Reply, text: string): (r: Result<string, Error>)
    ensures r.Failure? <==> Generate(llm, TaggingPrompt(text)).Unavailable?
    ensures r.Success? ==> r.value == PostProcess(Generate(llm, TaggingPrompt(text)).text)
    ensures r.Success? ==> '\n' !in r.value
  {
    match Generate(llm, TaggingPrompt(text))
    case Answer(answer) => Success(PostProcess(answer))
    case Unavailable => Failure(ValueError("Error occurred while processing the request."))
  }
}
