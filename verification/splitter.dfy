/**
 * Greedy word packing used to cut long raw text into pieces an LLM prompt can
 * take: whitespace-separated words are appended to the current chunk until the
 * next word's estimated token count would push it over the budget.
 */
module Splitter {
  import opened Text

  /** Token estimate of one word: `int(len(word) / 4) + 1`, never below one. */
  function TokenEstimate(w: string): (n: nat)
    ensures n >= 1
    ensures n * 4 > |w| >= (n - 1) * 4
  {
    |w| / 4 + 1
  }

  /** Estimated tokens of a group of words. */
  function Estimate(ws: seq<string>): nat
  {
    if ws == [] then 0 else Estimate(ws[..|ws| - 1]) + TokenEstimate(ws[|ws| - 1])
  }

  /** The groups concatenated in order. */
  function Flatten(gs: seq<seq<string>>): seq<string>
  {
    if gs == [] then [] else Flatten(gs[..|gs| - 1]) + gs[|gs| - 1]
  }

  /** The words of all chunks, in order. */
  function WordsOfChunks(cs: seq<string>): seq<string>
  {
    if cs == [] then [] else WordsOfChunks(cs[..|cs| - 1]) + Words(cs[|cs| - 1])
  }

  predicate AllWords(ws: seq<string>)
  {
    forall k :: 0 <= k < |ws| ==> IsWord(ws[k])
  }

  lemma {:induction false} WordsOfChunksIsFlatten(cs: seq<string>, gs: seq<seq<string>>)
    requires |cs| == |gs|
    requires forall k :: 0 <= k < |gs| ==> Words(cs[k]) == gs[k]
    ensures WordsOfChunks(cs) == Flatten(gs)
  {
    if cs != [] {
      var n := |cs| - 1;
      WordsOfChunksIsFlatten(cs[..n], gs[..n]);
      assert Words(cs[n]) == gs[n];
    }
  }

  /** Appending a word adds its estimate. */
  lemma EstimateSnoc(ws: seq<string>, w: string)
    ensures Estimate(ws + [w]) == Estimate(ws) + TokenEstimate(w)
  {
    assert (ws + [w])[..|ws|] == ws;
  }

  /** Appending a group appends its words. */
  lemma FlattenSnoc(gs: seq<seq<string>>, g: seq<string>)
    ensures Flatten(gs + [g]) == Flatten(gs) + g
  {
    assert (gs + [g])[..|gs|] == gs;
  }

  lemma TakeOneMore<T>(s: seq<T>, i: nat)
    requires i < |s|
    ensures s[..i + 1] == s[..i] + [s[i]]
  {
  }

  /** A group within budget, or a lone word that alone is over it. */
  predicate FitsOrSingle(g: seq<string>, maxTokens: int)
  {
    g != [] ==> Estimate(g) <= maxTokens || |g| == 1
  }

  /** Group `b` was started because its first word did not fit after group `a`. */
  predicate CutForced(a: seq<string>, b: seq<string>, maxTokens: int)
  {
    b != [] && Estimate(a) + TokenEstimate(b[0]) > maxTokens
  }

  ghost predicate GroupsOfWords(gs: seq<seq<string>>)
  {
    forall k :: 0 <= k < |gs| ==> AllWords(gs[k])
  }

  ghost predicate AllFit(gs: seq<seq<string>>, maxTokens: int)
  {
    forall k :: 0 <= k < |gs| ==> FitsOrSingle(gs[k], maxTokens)
  }

  ghost predicate CutsForced(gs: seq<seq<string>>, maxTokens: int)
  {
    forall k :: 1 <= k < |gs| ==> CutForced(gs[k - 1], gs[k], maxTokens)
  }

  /** The first group is empty exactly when no word was seen or the first word alone is over budget. */
  ghost predicate FirstGroup(gs: seq<seq<string>>, ws: seq<string>, maxTokens: int)
  {
    gs != [] && (gs[0] == [] <==> ws == [] || TokenEstimate(ws[0]) > maxTokens)
  }

  /**
   * `gs` is the state of the greedy packing of the words `ws` under
   * `maxTokens`, its last group being the chunk still open: the groups
   * concatenate to `ws`; only the first group can be empty, and it is exactly
   * when no word has been seen or the first word alone is over budget; a group
   * over budget is a single word; and every cut was forced by the next word
   * not fitting.
   */
  ghost predicate Packing(gs: seq<seq<string>>, ws: seq<string>, maxTokens: int)
  {
    && Flatten(gs) == ws
    && GroupsOfWords(gs)
    && FirstGroup(gs, ws, maxTokens)
    && AllFit(gs, maxTokens)
    && CutsForced(gs, maxTokens)
  }

  lemma GroupsSnoc(gs: seq<seq<string>>, g: seq<string>)
    ensures GroupsOfWords(gs + [g]) <==> GroupsOfWords(gs) && AllWords(g)
  {
    if GroupsOfWords(gs + [g]) {
      assert (gs + [g])[|gs|] == g;
      forall k | 0 <= k < |gs| ensures AllWords(gs[k]) {
        assert (gs + [g])[k] == gs[k];
      }
    }
  }

  lemma AllFitSnoc(gs: seq<seq<string>>, g: seq<string>, maxTokens: int)
    ensures AllFit(gs + [g], maxTokens) <==> AllFit(gs, maxTokens) && FitsOrSingle(g, maxTokens)
  {
    if AllFit(gs + [g], maxTokens) {
      assert (gs + [g])[|gs|] == g;
      forall k | 0 <= k < |gs| ensures FitsOrSingle(gs[k], maxTokens) {
        assert (gs + [g])[k] == gs[k];
      }
    }
  }

  lemma CutsSnoc(gs: seq<seq<string>>, g: seq<string>, maxTokens: int)
    ensures CutsForced(gs + [g], maxTokens) <==>
            CutsForced(gs, maxTokens) && (gs != [] ==> CutForced(gs[|gs| - 1], g, maxTokens))
  {
    var gs' := gs + [g];
    if CutsForced(gs', maxTokens) {
      forall k | 1 <= k < |gs| ensures CutForced(gs[k - 1], gs[k], maxTokens) {
        assert CutForced(gs'[k - 1], gs'[k], maxTokens);
      }
      if gs != [] {
        assert CutForced(gs'[|gs| - 1], gs'[|gs|], maxTokens);
      }
    }
  }

  /** Every group after the first is non-empty. */
  lemma CutsNonEmpty(gs: seq<seq<string>>, maxTokens: int)
    requires CutsForced(gs, maxTokens)
    ensures forall k :: 1 <= k < |gs| ==> gs[k] != []
  {
    forall k | 1 <= k < |gs| ensures gs[k] != [] {
      assert CutForced(gs[k - 1], gs[k], maxTokens);
    }
  }

  lemma PackStart(maxTokens: int)
    ensures Packing([] + [[]], [], maxTokens)
  {
    FlattenSnoc([], []);
  }

  /** The next word does not fit in the open group: it opens a new one. */
  lemma PackCut(groups: seq<seq<string>>, current: seq<string>, ws: seq<string>, w: string, maxTokens: int)
    requires Packing(groups + [current], ws, maxTokens) && IsWord(w)
    requires ws == [] <==> current == []
    requires ws == [] ==> groups == []
    requires Estimate(current) + TokenEstimate(w) > maxTokens
    ensures Packing((groups + [current]) + [[w]], ws + [w], maxTokens)
  {
    var gs := groups + [current];
    FlattenSnoc(gs, [w]);
    GroupsSnoc(gs, [w]);
    EstimateSnoc([], w);
    AllFitSnoc(gs, [w], maxTokens);
    CutsSnoc(gs, [w], maxTokens);
    assert gs[|gs| - 1] == current;
    assert (gs + [[w]])[0] == gs[0];
    if ws == [] {
      assert gs == [[]] && (ws + [w])[0] == w;
    } else {
      assert (ws + [w])[0] == ws[0];
    }
  }

  /** The next word fits in the open group: it is appended to it. */
  lemma PackExtend(groups: seq<seq<string>>, current: seq<string>, ws: seq<string>, w: string, maxTokens: int)
    requires Packing(groups + [current], ws, maxTokens) && IsWord(w)
    requires ws == [] <==> current == []
    requires ws == [] ==> groups == []
    requires Estimate(current) + TokenEstimate(w) <= maxTokens
    ensures Packing(groups + [current + [w]], ws + [w], maxTokens)
  {
    var gs, gs' := groups + [current], groups + [current + [w]];
    FlattenSnoc(groups, current);
    FlattenSnoc(groups, current + [w]);
    EstimateSnoc(current, w);
    GroupsSnoc(groups, current);
    GroupsSnoc(groups, current + [w]);
    AllFitSnoc(groups, current, maxTokens);
    AllFitSnoc(groups, current + [w], maxTokens);
    CutsSnoc(groups, current, maxTokens);
    CutsSnoc(groups, current + [w], maxTokens);
    if current == [] {
      assert gs' == [[w]] && ws + [w] == [w];
    } else {
      assert (current + [w])[0] == current[0];
      assert (ws + [w])[0] == ws[0];
      if groups == [] {
        assert gs[0] == current && gs'[0] == current + [w];
      } else {
        assert gs[0] == groups[0] && gs'[0] == groups[0];
      }
    }
  }

  /**
   * `chunks` is the greedy chunking of `words` under `maxTokens`: no word is
   * lost, duplicated or reordered; each chunk is its words joined by single
   * spaces; the only empty chunk is a leading one, there exactly when the
   * first word alone is over budget; a chunk over budget holds a single word;
   * and a cut is made only where the next word does not fit.
   */
  ghost predicate Chunking(chunks: seq<string>, words: seq<string>, maxTokens: int)
  {
    && WordsOfChunks(chunks) == words
    && (chunks == [] <==> words == [])
    && (forall i :: 0 <= i < |chunks| ==> chunks[i] == Join(Words(chunks[i]), " "))
    && (forall i :: 0 <= i < |chunks| ==>
          (chunks[i] == "" <==> i == 0 && TokenEstimate(words[0]) > maxTokens))
    && (chunks != [] ==> chunks[|chunks| - 1] != "")
    && (forall i :: 0 <= i < |chunks| && chunks[i] != "" ==>
          Estimate(Words(chunks[i])) <= maxTokens || |Words(chunks[i])| == 1)
    && (forall j :: 1 <= j < |chunks| ==>
          Words(chunks[j]) != [] &&
          Estimate(Words(chunks[j - 1])) + TokenEstimate(Words(chunks[j])[0]) > maxTokens)
  }

  /** What a finished packing (its open group non-empty) says about each group. */
  lemma GroupsOfPacking(groups: seq<seq<string>>, words: seq<string>, maxTokens: int)
    requires Packing(groups, words, maxTokens) && groups[|groups| - 1] != []
    ensures words != []
    ensures forall k :: 0 <= k < |groups| ==> (groups[k] == [] <==> k == 0 && TokenEstimate(words[0]) > maxTokens)
    ensures forall k :: 0 <= k < |groups| ==> FitsOrSingle(groups[k], maxTokens)
    ensures forall j :: 1 <= j < |groups| ==> CutForced(groups[j - 1], groups[j], maxTokens)
  {
    CutsNonEmpty(groups, maxTokens);
    var n := |groups| - 1;
    FlattenSnoc(groups[..n], groups[n]);
    assert groups == groups[..n] + [groups[n]];
  }

  /** Joining each group of a finished packing of `words` gives chunks with the promised properties. */
  lemma ChunksOfPacking(chunks: seq<string>, groups: seq<seq<string>>, words: seq<string>, maxTokens: int)
    requires Packing(groups, words, maxTokens) && groups[|groups| - 1] != []
    requires |chunks| == |groups|
    requires forall k :: 0 <= k < |groups| ==> chunks[k] == Join(groups[k], " ")
    ensures chunks != [] && Chunking(chunks, words, maxTokens)
  {
    forall k | 0 <= k < |groups|
      ensures Words(chunks[k]) == groups[k]
      ensures chunks[k] == "" <==> groups[k] == []
    {
      WordsOfJoin(groups[k]);
    }
    WordsOfChunksIsFlatten(chunks, groups);
    GroupsOfPacking(groups, words, maxTokens);
  }

  /** `split_text_into_chunks(text, max_tokens)`: the greedy chunking of the words of `text`. */
  method SplitTextIntoChunks(text: string, maxTokens: int) returns (chunks: seq<string>)
    ensures Chunking(chunks, Words(text), maxTokens)
  {
    chunks := PackWords(Words(text), maxTokens);
  }

  /** The loop of `split_text_into_chunks`, over the words of the text. */
  method PackWords(words: seq<string>, maxTokens: int) returns (chunks: seq<string>)
    requires AllWords(words)
    ensures Chunking(chunks, words, maxTokens)
  {
    chunks := [];
    var current: seq<string> := [];
    var currentLength := 0;
    ghost var groups: seq<seq<string>> := [];
    PackStart(maxTokens);
    for i := 0 to |words|
      invariant |chunks| == |groups|
      invariant forall k :: 0 <= k < |groups| ==> chunks[k] == Join(groups[k], " ")
      invariant currentLength == Estimate(current)
      invariant Packing(groups + [current], words[..i], maxTokens)
      invariant i == 0 <==> current == []
      invariant i == 0 ==> groups == []
    {
      var word := words[i];
      TakeOneMore(words, i);
      var cost := TokenEstimate(word);
      if currentLength + cost > maxTokens {
        PackCut(groups, current, words[..i], word, maxTokens);
        EstimateSnoc([], word);
        chunks := chunks + [Join(current, " ")];
        groups := groups + [current];
        current := [word];
        currentLength := cost;
      } else {
        PackExtend(groups, current, words[..i], word, maxTokens);
        EstimateSnoc(current, word);
        current := current + [word];
        currentLength := currentLength + cost;
      }
    }
    assert words[..|words|] == words;
    if current != [] {
      chunks := chunks + [Join(current, " ")];
      groups := groups + [current];
      ChunksOfPacking(chunks, groups, words, maxTokens);
    } else {
      assert WordsOfChunks([]) == [];
    }
  }
}
