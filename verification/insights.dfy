/**
 * `get_insights`: one pass over the table that counts entries per day and per
 * week, words, tags and moods, then ranks tags and moods by frequency and
 * colours each mood.
 *
 * Each row bumps its day twice, and two weeks (the Sunday-based `%Y-W%U`
 * week and the ISO week), because the loop body does its grouping twice.
 */
module Insights {
  import opened Text
  import opened Dates
  import Crud
  import opened Counters

  /** What the route asks the calendar and the regex engine: week keys and `len(re.findall(r"\w+", text))`. */
  datatype Calendar = Calendar(sundayWeek: Date -> string, isoWeek: Date -> string, wordCount: string -> nat)

  predicate DatesValid(es: seq<Crud.Entry>)
  {
    forall k :: 0 <= k < |es| ==> Dates.Valid(es[k].date)
  }

  /** `counts[k] += 1` on a `defaultdict(int)`. */
  function Incr(m: map<string, nat>, k: string): map<string, nat>
  {
    m[k := (if k in m then m[k] else 0) + 1]
  }

  // ---------------------------------------------------------------- per day and per week

  function DayCounts(es: seq<Crud.Entry>): map<string, nat>
    requires DatesValid(es)
  {
    if es == [] then map[]
    else
      var d := IsoFormat(es[|es| - 1].date);
      Incr(Incr(DayCounts(es[..|es| - 1]), d), d)
  }

  /** How many rows fall on the day written `d`. */
  function OnDay(es: seq<Crud.Entry>, d: string): nat
    requires DatesValid(es)
  {
    if es == [] then 0
    else OnDay(es[..|es| - 1], d) + (if IsoFormat(es[|es| - 1].date) == d then 1 else 0)
  }

  /** A day is listed exactly when some row falls on it, with twice the number of its rows. */
  lemma {:induction false} DayCountsTwice(es: seq<Crud.Entry>, d: string)
    requires DatesValid(es)
    ensures d in DayCounts(es) <==> OnDay(es, d) > 0
    ensures d in DayCounts(es) ==> DayCounts(es)[d] == 2 * OnDay(es, d)
  {
    if es != [] {
      DayCountsTwice(es[..|es| - 1], d);
    }
  }

  /** A table of one row reports two entries on that row's day. */
  lemma OneRowCountedTwice(e: Crud.Entry)
    requires Dates.Valid(e.date)
    ensures DayCounts([e]) == map[IsoFormat(e.date) := 2]
  {
    assert [e][..0] == [];
  }

  /** The per-day count the route evidently means: each row counted once, on its day. */
  function DailyCounts(es: seq<Crud.Entry>): map<string, nat>
    requires DatesValid(es)
  {
    if es == [] then map[]
    else Incr(DailyCounts(es[..|es| - 1]), IsoFormat(es[|es| - 1].date))
  }

  /** A day is listed exactly when some row falls on it, with the number of its rows. */
  lemma {:induction false} DailyCountsOnce(es: seq<Crud.Entry>, d: string)
    requires DatesValid(es)
    ensures d in DailyCounts(es) <==> OnDay(es, d) > 0
    ensures d in DailyCounts(es) ==> DailyCounts(es)[d] == OnDay(es, d)
  {
    if es != [] {
      DailyCountsOnce(es[..|es| - 1], d);
    }
  }

  function WeekCounts(es: seq<Crud.Entry>, cal: Calendar): map<string, nat>
  {
    if es == [] then map[]
    else
      var d := es[|es| - 1].date;
      Incr(Incr(WeekCounts(es[..|es| - 1], cal), cal.sundayWeek(d)), cal.isoWeek(d))
  }

  /** How many of the two week keys of each row are `w`. */
  function InWeek(es: seq<Crud.Entry>, cal: Calendar, w: string): nat
  {
    if es == [] then 0
    else
      var d := es[|es| - 1].date;
      InWeek(es[..|es| - 1], cal, w) + (if cal.sundayWeek(d) == w then 1 else 0) + (if cal.isoWeek(d) == w then 1 else 0)
  }

  /** A week key is listed exactly when some row has it, counted once per key that names it. */
  lemma {:induction false} WeekCountsBoth(es: seq<Crud.Entry>, cal: Calendar, w: string)
    ensures w in WeekCounts(es, cal) <==> InWeek(es, cal, w) > 0
    ensures w in WeekCounts(es, cal) ==> WeekCounts(es, cal)[w] == InWeek(es, cal, w)
  {
    if es != [] {
      WeekCountsBoth(es[..|es| - 1], cal, w);
    }
  }

  /**
   * A table of one row reports it under both of its week keys, or twice
   * under one key when the two keys agree.
   */
  lemma OneRowTwoWeeks(e: Crud.Entry, cal: Calendar)
    ensures var sw, iw := cal.sundayWeek(e.date), cal.isoWeek(e.date);
      WeekCounts([e], cal) == if sw == iw then map[sw := 2] else map[sw := 1, iw := 1]
  {
    assert [e][..0] == [];
  }

  /** The per-week count the route evidently means: each row counted once, under its ISO week. */
  function WeeklyCounts(es: seq<Crud.Entry>, cal: Calendar): map<string, nat>
  {
    if es == [] then map[]
    else Incr(WeeklyCounts(es[..|es| - 1], cal), cal.isoWeek(es[|es| - 1].date))
  }

  /** How many rows fall in the ISO week written `w`. */
  function InIsoWeek(es: seq<Crud.Entry>, cal: Calendar, w: string): nat
  {
    if es == [] then 0
    else InIsoWeek(es[..|es| - 1], cal, w) + (if cal.isoWeek(es[|es| - 1].date) == w then 1 else 0)
  }

  /** A week is listed exactly when some row falls in it, with the number of its rows. */
  lemma {:induction false} WeeklyCountsOnce(es: seq<Crud.Entry>, cal: Calendar, w: string)
    ensures w in WeeklyCounts(es, cal) <==> InIsoWeek(es, cal, w) > 0
    ensures w in WeeklyCounts(es, cal) ==> WeeklyCounts(es, cal)[w] == InIsoWeek(es, cal, w)
  {
    if es != [] {
      WeeklyCountsOnce(es[..|es| - 1], cal, w);
    }
  }

  // ---------------------------------------------------------------- words

  function TotalWords(es: seq<Crud.Entry>, cal: Calendar): nat
  {
    if es == [] then 0 else TotalWords(es[..|es| - 1], cal) + cal.wordCount(es[|es| - 1].text)
  }

  // ---------------------------------------------------------------- tags and moods

  /** `[t.strip().lower() for t in ps if t.strip()]`. */
  function KeptTags(ps: seq<string>): (ts: seq<string>)
    ensures forall i :: 0 <= i < |ts| ==> ts[i] != [] && Strip(ts[i]) == ts[i] && NoUpper(ts[i])
  {
    if ps == [] then []
    else
      var p := ps[|ps| - 1];
      var init := KeptTags(ps[..|ps| - 1]);
      if IsBlank(p) then init
      else
        BlankIffStripEmpty(p);
        StripOfStripped(p);
        LowerKeepsStripped(Strip(p));
        init + [Lower(Strip(p))]
  }

  /** The tags a row contributes. Unlike the tag routes, empty pieces are dropped. */
  function RowTags(e: Crud.Entry): seq<string>
  {
    KeptTags(SplitOn(e.tags, ','))
  }

  /** Every tag counted, row after row. */
  function AllRowTags(es: seq<Crud.Entry>): (ts: seq<string>)
    ensures forall i :: 0 <= i < |ts| ==> ts[i] != [] && Strip(ts[i]) == ts[i] && NoUpper(ts[i])
  {
    if es == [] then [] else AllRowTags(es[..|es| - 1]) + RowTags(es[|es| - 1])
  }

  function TagCounter(es: seq<Crud.Entry>): Counter
  {
    if es == [] then [] else Update(TagCounter(es[..|es| - 1]), RowTags(es[|es| - 1]))
  }

  /** The tag counter holds, for every tag, how often it occurs; the empty tag never occurs. */
  lemma {:induction false} TagCounterCounts(es: seq<Crud.Entry>, t: string)
    ensures CountOf(TagCounter(es), t) == multiset(AllRowTags(es))[t]
    ensures Proper(TagCounter(es))
    ensures CountOf(TagCounter(es), "") == 0
  {
    if es != [] {
      var init := es[..|es| - 1];
      TagCounterCounts(init, t);
      TagCounterCounts(init, "");
      UpdateCounts(TagCounter(init), RowTags(es[|es| - 1]), t);
      UpdateCounts(TagCounter(init), RowTags(es[|es| - 1]), "");
      UpdateProper(TagCounter(init), RowTags(es[|es| - 1]));
    }
    assert "" !in AllRowTags(es);
  }

  /** The tag counter lists each tag once, in the order it first occurs across the rows. */
  lemma {:induction false} TagCounterKeys(es: seq<Crud.Entry>)
    ensures Keys(TagCounter(es)) == NewKeys([], AllRowTags(es))
  {
    if es != [] {
      var init := es[..|es| - 1];
      TagCounterKeys(init);
      NewKeysAppend([], AllRowTags(init), RowTags(es[|es| - 1]));
      assert [] + NewKeys([], AllRowTags(init)) == NewKeys([], AllRowTags(init));
    }
  }

  /** `str(entry.mood_label or "").strip().lower()`. */
  function MoodOf(e: Crud.Entry): string
  {
    Lower(Strip(e.mood))
  }

  /** The non-empty moods, row after row. */
  function Moods(es: seq<Crud.Entry>): seq<string>
  {
    if es == [] then []
    else Moods(es[..|es| - 1]) + (if MoodOf(es[|es| - 1]) != [] then [MoodOf(es[|es| - 1])] else [])
  }

  /** `if mood: mood_counter.update([mood])`. */
  function CountMood(c: Counter, mood: string): Counter
  {
    if mood != [] then Bump(c, mood) else c
  }

  function MoodCounter(es: seq<Crud.Entry>): Counter
  {
    if es == [] then [] else CountMood(MoodCounter(es[..|es| - 1]), MoodOf(es[|es| - 1]))
  }

  /** The mood counter holds, for every mood, how many rows have it. */
  lemma {:induction false} MoodCounterCounts(es: seq<Crud.Entry>, m: string)
    ensures CountOf(MoodCounter(es), m) == multiset(Moods(es))[m]
    ensures Proper(MoodCounter(es))
  {
    if es != [] {
      var init := es[..|es| - 1];
      MoodCounterCounts(init, m);
      if MoodOf(es[|es| - 1]) != [] {
        BumpProper(MoodCounter(init), MoodOf(es[|es| - 1]));
      }
    }
  }

  /** The mood counter lists each mood once, in the order it first occurs across the rows. */
  lemma {:induction false} MoodCounterKeys(es: seq<Crud.Entry>)
    ensures Keys(MoodCounter(es)) == NewKeys([], Moods(es))
  {
    if es != [] {
      var init := es[..|es| - 1];
      var m := MoodOf(es[|es| - 1]);
      MoodCounterKeys(init);
      if m != [] {
        var keys := Keys(MoodCounter(init));
        assert MoodCounter(es) == Bump(MoodCounter(init), m);
        assert Moods(es) == Moods(init) + [m];
        BumpKeys(MoodCounter(init), m);
        NewKeysAppend([], Moods(init), [m]);
        assert [] + keys == keys;
        assert [m][1..] == [];
        assert NewKeys([], Moods(es)) == keys + NewKeys(keys, [m]);
        if m in keys {
          assert NewKeys(keys, [m]) == [];
          assert keys + [] == keys;
        } else {
          assert NewKeys(keys, [m]) == [m];
        }
      } else {
        assert MoodCounter(es) == MoodCounter(init);
        assert Moods(es) == Moods(init) + [] == Moods(init);
      }
    }
  }

  // ---------------------------------------------------------------- colours

  const Grey: string := "#CCCCCC"

  const MoodVocabulary: set<string> :=
    {"joy", "happy", "excited", "calm", "reflective", "anxious", "sad", "angry", "stress", "grateful", "motivated"}

  /** `MOOD_COLOR_MAP.get(mood, "#CCCCCC")`. */
  function MoodColor(m: string): (c: string)
    ensures c == Grey <==> m !in MoodVocabulary
  {
    if m == "joy" then "#FFE066"
    else if m == "happy" then "#FFD700"
    else if m == "excited" then "#FFA500"
    else if m == "calm" then "#A0E7E5"
    else if m == "reflective" then "#B0C4DE"
    else if m == "anxious" then "#FF6F61"
    else if m == "sad" then "#778899"
    else if m == "angry" then "#FF4500"
    else if m == "stress" then "#B22222"
    else if m == "grateful" then "#98FB98"
    else if m == "motivated" then "#00CED1"
    else Grey
  }

  datatype MoodShare = MoodShare(mood: string, count: nat, color: string)

  function Distribution(c: Counter): (r: seq<MoodShare>)
    ensures |r| == |c|
    ensures forall i :: 0 <= i < |c| ==> r[i].mood == c[i].0 && r[i].count == c[i].1
    ensures forall i :: 0 <= i < |c| ==> (r[i].color == Grey <==> c[i].0 !in MoodVocabulary)
  {
    seq(|c|, i requires 0 <= i < |c| => MoodShare(c[i].0, c[i].1, MoodColor(c[i].0)))
  }

  // ---------------------------------------------------------------- the report

  /** `total_words // total_entries`. */
  function Average(total: nat, n: nat): nat
    requires n > 0
  {
    total / n
  }

  datatype Report =
    | NoEntries
    | Report(totalEntries: nat, averageWordCount: nat, perDay: map<string, nat>, perWeek: map<string, nat>,
             topTags: Counter, moodDistribution: seq<MoodShare>, moods: Counter)

  /** The response built from the running totals once every row is counted. */
  function Finish(totalEntries: nat, totalWords: nat, daily: map<string, nat>, weekly: map<string, nat>,
                  tagCounter: Counter, moodCounter: Counter): Report
    requires totalEntries > 0
  {
    Report(totalEntries, Average(totalWords, totalEntries), daily, weekly,
           Top(tagCounter, 10), Distribution(MostCommon(moodCounter)), Top(moodCounter, 10))
  }

  function InsightsOf(es: seq<Crud.Entry>, cal: Calendar): Report
    requires DatesValid(es)
  {
    if es == [] then NoEntries
    else Finish(|es|, TotalWords(es, cal), DayCounts(es), WeekCounts(es, cal), TagCounter(es), MoodCounter(es))
  }

  /** The average is the total word count divided by the number of rows, rounded down. */
  lemma AverageRoundsDown(es: seq<Crud.Entry>, cal: Calendar)
    requires DatesValid(es) && es != []
    ensures InsightsOf(es, cal).totalEntries == |es|
    ensures var avg := InsightsOf(es, cal).averageWordCount;
      avg * |es| <= TotalWords(es, cal) < (avg + 1) * |es|
  {
    var n, t := |es|, TotalWords(es, cal);
    assert t == (t / n) * n + t % n;
  }

  /** Every top tag is shown with the number of times it occurs, and no tag twice. */
  lemma TopTagsCounted(es: seq<Crud.Entry>, cal: Calendar)
    requires DatesValid(es) && es != []
    ensures var top := InsightsOf(es, cal).topTags;
      && Proper(top)
      && forall i :: 0 <= i < |top| ==> top[i].1 == multiset(AllRowTags(es))[top[i].0]
  {
    var top := InsightsOf(es, cal).topTags;
    var c := TagCounter(es);
    TagCounterCounts(es, "");
    forall i | 0 <= i < |top| ensures top[i].1 == multiset(AllRowTags(es))[top[i].0] {
      var j :| 0 <= j < |c| && c[j] == top[i];
      CountOfProper(c, c[j].0);
      TagCounterCounts(es, c[j].0);
    }
    TopProper(c, 10);
  }

  /** The moods a distribution shows. */
  function Shown(dist: seq<MoodShare>): set<string>
  {
    set i | 0 <= i < |dist| :: dist[i].mood
  }

  /** The distribution shows exactly the counter's keys. */
  lemma ShownKeys(c: Counter, m: string)
    ensures m in Shown(Distribution(MostCommon(c))) <==> m in Keys(c)
  {
    var all := MostCommon(c);
    var dist := Distribution(all);
    if m in Keys(c) {
      var j :| 0 <= j < |c| && Keys(c)[j] == m;
      assert c[j] in multiset(all);
      var i :| 0 <= i < |all| && all[i] == c[j];
      assert dist[i].mood == m;
    }
    if m in Shown(dist) {
      var i :| 0 <= i < |dist| && dist[i].mood == m;
      assert all[i] in multiset(c);
      var j :| 0 <= j < |c| && c[j] == all[i];
      assert Keys(c)[j] == m;
    }
  }

  /** A mood is in the distribution exactly when some row has it. */
  lemma DistributionCovers(es: seq<Crud.Entry>, cal: Calendar, m: string)
    requires DatesValid(es) && es != []
    ensures m in Shown(InsightsOf(es, cal).moodDistribution) <==> m in Moods(es)
  {
    var c := MoodCounter(es);
    assert InsightsOf(es, cal).moodDistribution == Distribution(MostCommon(c));
    MoodCounterCounts(es, m);
    CountOfProper(c, m);
    ShownKeys(c, m);
  }

  /** The top items of a proper counter still have distinct keys and positive counts. */
  lemma TopProper(c: Counter, n: nat)
    requires Proper(c)
    ensures Proper(Top(c, n))
  {
    var r := Top(c, n);
    var all := MostCommon(c);
    forall i, j | 0 <= i < j < |r| ensures r[i].0 != r[j].0 {
      assert r[i] == all[i] && r[j] == all[j];
      MostCommonDistinct(c, i, j);
    }
  }

  /** Sorting moves items and never duplicates one, so two positions hold different keys. */
  lemma MostCommonDistinct(c: Counter, i: nat, j: nat)
    requires Proper(c) && i < j < |c|
    ensures MostCommon(c)[i].0 != MostCommon(c)[j].0
  {
    var all := MostCommon(c);
    if all[i].0 == all[j].0 {
      assert all[i] in multiset(c) && all[j] in multiset(c);
      var a :| 0 <= a < |c| && c[a] == all[i];
      var b :| 0 <= b < |c| && c[b] == all[j];
      if a == b {
        assert all[i] == all[j];
        PairTwice(all, i, j);
        assert multiset(c)[c[a]] >= 2;
        SingleOccurrence(c, a);
      }
      assert false;
    }
  }

  /** An item at two positions occurs at least twice. */
  lemma PairTwice(s: Counter, i: nat, j: nat)
    requires i < j < |s| && s[i] == s[j]
    ensures multiset(s)[s[i]] >= 2
  {
    assert s == s[..i] + [s[i]] + s[i + 1..j] + [s[j]] + s[j + 1..];
  }

  /** In a proper counter each item occurs once. */
  lemma SingleOccurrence(c: Counter, a: nat)
    requires Proper(c) && a < |c|
    ensures multiset(c)[c[a]] == 1
  {
    assert c == c[..a] + [c[a]] + c[a + 1..];
    assert c[a] !in c[..a] by {
      forall q | 0 <= q < a ensures c[..a][q] != c[a] {
        assert c[..a][q].0 == c[q].0 != c[a].0;
      }
    }
    assert c[a] !in c[a + 1..] by {
      forall q | a < q < |c| ensures c[q] != c[a] {
        assert c[q].0 != c[a].0;
      }
    }
  }

  /** What one more row does to each running total. */
  lemma PrefixStep(es: seq<Crud.Entry>, cal: Calendar, i: nat)
    requires DatesValid(es) && i < |es|
    ensures DatesValid(es[..i]) && DatesValid(es[..i + 1])
    ensures var d := IsoFormat(es[i].date);
      DayCounts(es[..i + 1]) == Incr(Incr(DayCounts(es[..i]), d), d)
    ensures WeekCounts(es[..i + 1], cal)
      == Incr(Incr(WeekCounts(es[..i], cal), cal.sundayWeek(es[i].date)), cal.isoWeek(es[i].date))
    ensures TotalWords(es[..i + 1], cal) == TotalWords(es[..i], cal) + cal.wordCount(es[i].text)
    ensures TagCounter(es[..i + 1]) == Update(TagCounter(es[..i]), RowTags(es[i]))
    ensures MoodCounter(es[..i + 1]) == CountMood(MoodCounter(es[..i]), MoodOf(es[i]))
  {
    assert es[..i + 1][..i] == es[..i];
    assert es[..i + 1][i] == es[i];
  }

  /** `get_insights`. */
  method GetInsights(es: seq<Crud.Entry>, cal: Calendar) returns (r: Report)
    requires DatesValid(es)
    ensures r == InsightsOf(es, cal)
  {
    if es == [] {
      return NoEntries;
    }
    var daily: map<string, nat> := map[];
    var weekly: map<string, nat> := map[];
    var tagCounter: Counter := [];
    var moodCounter: Counter := [];
    var totalWords: nat := 0;
    var totalEntries: nat := 0;
    for i := 0 to |es|
      invariant totalEntries == i
      invariant DatesValid(es[..i])
      invariant daily == DayCounts(es[..i])
      invariant weekly == WeekCounts(es[..i], cal)
      invariant totalWords == TotalWords(es[..i], cal)
      invariant tagCounter == TagCounter(es[..i])
      invariant moodCounter == MoodCounter(es[..i])
    {
      PrefixStep(es, cal, i);
      var e := es[i];
      totalEntries := totalEntries + 1;
      var dateKey := IsoFormat(e.date);
      daily := Incr(daily, dateKey);
      weekly := Incr(weekly, cal.sundayWeek(e.date));
      totalWords := totalWords + cal.wordCount(e.text);
      var tags := RowTags(e);
      tagCounter := Update(tagCounter, tags);
      var mood := MoodOf(e);
      moodCounter := CountMood(moodCounter, mood);
      daily := Incr(daily, dateKey);
      weekly := Incr(weekly, cal.isoWeek(e.date));
    }
    assert es[..|es|] == es;
    return Finish(totalEntries, totalWords, daily, weekly, tagCounter, moodCounter);
  }
}
