/**
 * The two routes that read the `tags` column as a comma-separated list:
 * `list_all_tags` and `filter_entries_by_tag`. A row takes part only when its
 * tags are not blank; each piece is trimmed and lower-cased, and empty pieces
 * are kept.
 */
module TagQueries {
  import opened Wrappers
  import opened Text
  import Crud

  /** `[t.strip().lower() for t in ps]`. */
  function CleanPieces(ps: seq<string>): (r: seq<string>)
    ensures |r| == |ps|
    ensures forall i :: 0 <= i < |ps| ==> r[i] == Lower(Strip(ps[i]))
  {
    seq(|ps|, i requires 0 <= i < |ps| => Lower(Strip(ps[i])))
  }

  /** The tag list of a `tags` value. */
  function TagList(tags: string): seq<string>
  {
    CleanPieces(SplitOn(tags, ','))
  }

  /** The rows the routes look at: `entry.tags is not None and entry.tags.strip()`. */
  predicate HasTags(e: Crud.Entry)
  {
    !IsBlank(e.tags)
  }

  /** Every listed tag is trimmed and lower-case. */
  lemma TagListShape(tags: string)
    ensures forall t :: t in TagList(tags) ==> Strip(t) == t && NoUpper(t)
  {
    var ps := SplitOn(tags, ',');
    forall t | t in TagList(tags) ensures Strip(t) == t && NoUpper(t) {
      var i :| 0 <= i < |ps| && TagList(tags)[i] == t;
      StripOfStripped(ps[i]);
      LowerKeepsStripped(Strip(ps[i]));
    }
  }

  /** Empty pieces are not dropped: `"a,,b"` lists the empty tag. */
  lemma EmptyPieceListed()
    ensures TagList("a,,b") == ["a", "", "b"]
  {
    var b: string := ['b'];
    assert SplitOn(b[1..], ',') == [""];
    assert [b[0]] + "" == b && [""][1..] == [];
    assert SplitOn(b, ',') == [b];
    var s: string := [','] + b;
    assert s[1..] == b;
    assert SplitOn(s, ',') == ["", b];
    var t: string := [','] + s;
    assert t[1..] == s;
    assert SplitOn(t, ',') == ["", "", b];
    var u: string := ['a'] + t;
    assert u[1..] == t && u == "a,,b";
    var rest := SplitOn(t, ',');
    assert [u[0]] + rest[0] == "a" && rest[1..] == ["", b];
    assert SplitOn(u, ',') == ["a", "", b];
    assert Strip("a") == "a" && Strip("b") == "b";
    assert Lower("a") == "a" && Lower("b") == "b";
  }

  // ---------------------------------------------------------------- list_all_tags

  /** The tags of the rows that have some, as a set. */
  function AllTags(es: seq<Crud.Entry>): set<string>
  {
    if es == [] then {}
    else
      var last := es[|es| - 1];
      AllTags(es[..|es| - 1]) + (if HasTags(last) then set t | t in TagList(last.tags) else {})
  }

  /** Every tag of every row with tags is listed. */
  lemma {:induction false} AllTagsHas(es: seq<Crud.Entry>, k: nat, t: string)
    requires k < |es| && HasTags(es[k]) && t in TagList(es[k].tags)
    ensures t in AllTags(es)
  {
    var n := |es| - 1;
    if k < n {
      assert es[..n][k] == es[k];
      AllTagsHas(es[..n], k, t);
    }
  }

  /** Every listed tag comes from some row with tags. */
  lemma {:induction false} AllTagsFrom(es: seq<Crud.Entry>, t: string) returns (k: nat)
    requires t in AllTags(es)
    ensures k < |es| && HasTags(es[k]) && t in TagList(es[k].tags)
  {
    var n := |es| - 1;
    if t in AllTags(es[..n]) {
      k := AllTagsFrom(es[..n], t);
      assert es[..n][k] == es[k];
    } else {
      k := n;
    }
  }

  predicate StrictlySorted(s: seq<string>)
  {
    forall i, j :: 0 <= i < j < |s| ==> Less(s[i], s[j])
  }

  /** Puts `x` before the first element above it. */
  function InsertSorted(x: string, s: seq<string>): (r: seq<string>)
    ensures forall t :: t in r <==> t == x || t in s
  {
    if s == [] || Less(x, s[0]) then [x] + s
    else [s[0]] + InsertSorted(x, s[1..])
  }

  lemma {:induction false} InsertSortedSorted(x: string, s: seq<string>)
    requires StrictlySorted(s) && x !in s
    ensures StrictlySorted(InsertSorted(x, s))
  {
    var r := InsertSorted(x, s);
    if s == [] {
    } else if Less(x, s[0]) {
      forall j | 1 <= j < |r| ensures Less(x, r[j]) {
        assert r[j] == s[j - 1];
        if j > 1 {
          LessTransitive(x, s[0], s[j - 1]);
        }
      }
    } else {
      LessTotal(x, s[0]);
      assert Less(s[0], x);
      assert StrictlySorted(s[1..]);
      InsertSortedSorted(x, s[1..]);
      var t := InsertSorted(x, s[1..]);
      assert r == [s[0]] + t;
      forall j | 1 <= j < |r| ensures Less(s[0], r[j]) {
        assert r[j] == t[j - 1];
        assert t[j - 1] in t;
        if r[j] != x {
          var k :| 0 <= k < |s[1..]| && s[1..][k] == r[j];
          assert s[k + 1] == r[j];
        }
      }
    }
  }

  /** `list_all_tags`: every tag of every row with tags, once each, in ascending order. */
  method ListAllTags(es: seq<Crud.Entry>) returns (tags: seq<string>)
    ensures StrictlySorted(tags)
    ensures forall t :: t in tags <==> t in AllTags(es)
  {
    var tagSet: set<string> := {};
    for i := 0 to |es|
      invariant tagSet == AllTags(es[..i])
    {
      assert es[..i + 1][..i] == es[..i];
      if !IsBlank(es[i].tags) {
        var tagList := TagList(es[i].tags);
        tagSet := tagSet + set t | t in tagList;
      }
    }
    assert es[..|es|] == es;
    tags := [];
    var rest := tagSet;
    while rest != {}
      invariant StrictlySorted(tags)
      invariant forall t :: t in tags ==> t !in rest
      invariant forall t :: t in tagSet <==> t in tags || t in rest
      decreases |rest|
    {
      var t :| t in rest;
      InsertSortedSorted(t, tags);
      tags := InsertSorted(t, tags);
      rest := rest - {t};
    }
  }

  // ---------------------------------------------------------------- filter_entries_by_tag

  /** `tag.lower() in tag_list` for a row with tags. */
  predicate HasTag(e: Crud.Entry, tag: string)
  {
    HasTags(e) && Lower(tag) in TagList(e.tags)
  }

  /** The rows with the tag, in table order. */
  function Matching(es: seq<Crud.Entry>, tag: string): seq<Crud.Entry>
  {
    if es == [] then []
    else
      var last := es[|es| - 1];
      Matching(es[..|es| - 1], tag) + (if HasTag(last, tag) then [last] else [])
  }

  /** A row is returned exactly when it is in the table and has the tag. */
  lemma {:induction false} MatchingMembers(es: seq<Crud.Entry>, tag: string, e: Crud.Entry)
    ensures e in Matching(es, tag) <==> e in es && HasTag(e, tag)
  {
    if es != [] {
      var n := |es| - 1;
      MatchingMembers(es[..n], tag, e);
      assert es == es[..n] + [es[n]];
    }
  }

  /** Filtering the table part by part gives the parts' results in order, so table order is kept. */
  lemma {:induction false} MatchingAppend(a: seq<Crud.Entry>, b: seq<Crud.Entry>, tag: string)
    ensures Matching(a + b, tag) == Matching(a, tag) + Matching(b, tag)
  {
    if b == [] {
      assert a + b == a;
    } else {
      var n := |b| - 1;
      MatchingAppend(a, b[..n], tag);
      assert (a + b)[..|a + b| - 1] == a + b[..n];
      assert (a + b)[|a + b| - 1] == b[n];
    }
  }

  /** Tags are stored trimmed, so a query that starts with whitespace matches nothing. */
  lemma LeadingSpaceMatchesNothing(es: seq<Crud.Entry>, tag: string)
    requires tag != [] && IsSpace(tag[0])
    ensures Matching(es, tag) == []
  {
    forall e | e in es ensures !HasTag(e, tag) {
      TagListShape(e.tags);
    }
    if Matching(es, tag) != [] {
      var e := Matching(es, tag)[0];
      MatchingMembers(es, tag, e);
    }
  }

  /** `filter_entries_by_tag`: the matching rows in table order, or status 404 when there are none. */
  method FilterEntriesByTag(es: seq<Crud.Entry>, tag: string) returns (r: Result<seq<Crud.Entry>, nat>)
    ensures r.Failure? <==> Matching(es, tag) == []
    ensures r.Failure? ==> r.error == 404
    ensures r.Success? ==> r.value == Matching(es, tag)
  {
    var matching: seq<Crud.Entry> := [];
    for i := 0 to |es|
      invariant matching == Matching(es[..i], tag)
    {
      assert es[..i + 1][..i] == es[..i];
      if !IsBlank(es[i].tags) {
        var tagList := TagList(es[i].tags);
        if Lower(tag) in tagList {
          matching := matching + [es[i]];
        }
      }
    }
    assert es[..|es|] == es;
    if matching == [] {
      return Failure(404);
    }
    return Success(matching);
  }
}
