/**
 * The `journal_entries` table and the four operations the backend performs
 * on it: insert with validation and defaults, list by date, look up by id,
 * delete everything. Row ids behave as SQLite rowids: one more than the
 * largest id in the table, so they start again at 1 after the table is
 * emptied.
 */
module Crud {
  import opened Wrappers
  import opened Text
  import opened Dates

  /** A row: `id`, `date`, `text`, `source_type`, `tags`, `mood_label`. */
  datatype Entry = Entry(id: nat, date: Date, text: string, sourceType: string, tags: string, mood: string)

  /** What `add_entry` may be given as its `date` argument. */
  datatype DateArg = NoDate | DateText(text: string) | DateValue(value: Date)

  /** The exception `add_entry` raises. */
  datatype Error = ValueError(message: string)

  /** Rows are kept in insertion order, which is increasing id order. */
  predicate IdsIncreasing(es: seq<Entry>)
  {
    forall i, j :: 0 <= i < j < |es| ==> es[i].id < es[j].id
  }

  predicate WellFormed(es: seq<Entry>)
  {
    IdsIncreasing(es) && forall k :: 0 <= k < |es| ==> es[k].id >= 1 && Dates.Valid(es[k].date)
  }

  /** The rowid SQLite gives the next row. */
  function NextId(es: seq<Entry>): (id: nat)
    ensures id >= 1
    ensures IdsIncreasing(es) ==> forall k :: 0 <= k < |es| ==> es[k].id < id
  {
    if es == [] then 1 else es[|es| - 1].id + 1
  }

  /** A row given the next id keeps the table well formed. */
  lemma AppendNext(es: seq<Entry>, e: Entry)
    requires WellFormed(es) && Dates.Valid(e.date) && e.id == NextId(es)
    ensures WellFormed(es + [e])
  {
  }

  // ------------------------------------------------------------- add_entry

  /** `SELECT max(date)`, or nothing for an empty table. */
  function MaxDate(es: seq<Entry>): (r: Option<Date>)
    ensures r.None? <==> es == []
    ensures r.Some? ==> forall k :: 0 <= k < |es| ==> NotAfter(es[k].date, r.value)
  {
    if es == [] then None
    else
      var last := es[|es| - 1].date;
      match MaxDate(es[..|es| - 1])
      case None => Some(last)
      case Some(m) => if Before(m, last) then Some(last) else Some(m)
  }

  /** The maximum is the date of some row. */
  lemma {:induction false} MaxDateOccurs(es: seq<Entry>)
    requires es != []
    ensures exists k :: 0 <= k < |es| && es[k].date == MaxDate(es).value
  {
    var n := |es| - 1;
    if n > 0 {
      MaxDateOccurs(es[..n]);
      var k :| 0 <= k < n && es[..n][k].date == MaxDate(es[..n]).value;
      assert es[k] == es[..n][k];
    } else {
      assert es[0].date == MaxDate(es).value;
    }
  }

  lemma MaxDateValid(es: seq<Entry>)
    requires WellFormed(es) && es != []
    ensures Dates.Valid(MaxDate(es).value)
  {
    MaxDateOccurs(es);
  }

  /** `max(date) or today`. */
  function DefaultDate(es: seq<Entry>, today: Date): (d: Date)
    requires WellFormed(es) && Dates.Valid(today)
    ensures Dates.Valid(d)
  {
    if es == [] then today
    else
      MaxDateValid(es);
      MaxDate(es).value
  }

  /** The date `add_entry` stores, or the `ValueError` it raises. */
  function ResolveDate(es: seq<Entry>, arg: DateArg, today: Date): (r: Result<Date, Error>)
    requires WellFormed(es) && Dates.Valid(today) && (arg.DateValue? ==> Dates.Valid(arg.value))
    ensures r.Success? ==> Dates.Valid(r.value)
    ensures r.Failure? <==> arg.DateText? && arg.text != "" && ParseIsoDate(arg.text).None?
    ensures arg.DateValue? ==> r == Success(arg.value)
    ensures arg.DateText? && arg.text != "" && ParseIsoDate(arg.text).Some? ==> r == Success(ParseIsoDate(arg.text).value)
    ensures arg.NoDate? || arg == DateText("") ==>
      && r.Success?
      && (es == [] ==> r.value == today)
      && forall k :: 0 <= k < |es| ==> NotAfter(es[k].date, r.value)
  {
    match arg
    case NoDate => Success(DefaultDate(es, today))
    case DateText(s) =>
      if s == "" then Success(DefaultDate(es, today))
      else if ParseIsoDate(s).Some? then Success(ParseIsoDate(s).value)
      else Failure(ValueError("time data does not match format '%Y-%m-%d'"))
    case DateValue(d) => Success(d)
  }

  /** What `add_entry` inserts, or the `ValueError` it raises. */
  function Added(es: seq<Entry>, text: string, arg: DateArg, sourceType: string,
                 tags: Option<string>, mood: Option<string>, today: Date): (r: Result<Entry, Error>)
    requires WellFormed(es) && Dates.Valid(today) && (arg.DateValue? ==> Dates.Valid(arg.value))
    ensures r.Failure? <==> IsBlank(text) || (arg.DateText? && arg.text != "" && ParseIsoDate(arg.text).None?)
    ensures r.Success? ==> r.value.id == NextId(es) && Dates.Valid(r.value.date)
    ensures r.Success? ==> r.value.text == text && r.value.sourceType == sourceType
    ensures r.Success? ==> r.value.tags == tags.GetOr("") && r.value.mood == mood.GetOr("")
    ensures r.Success? ==> ResolveDate(es, arg, today) == Success(r.value.date)
  {
    if IsBlank(text) then Failure(ValueError("Journal entry text cannot be empty."))
    else
      match ResolveDate(es, arg, today)
      case Failure(e) => Failure(e)
      case Success(d) =>
        Success(Entry(NextId(es), d, text, sourceType, tags.GetOr(""), mood.GetOr("")))
  }

  /** With no date, the latest date in the table is used, or today when the table is empty. */
  lemma AddedDefaultDate(es: seq<Entry>, text: string, arg: DateArg, sourceType: string,
                         tags: Option<string>, mood: Option<string>, today: Date)
    requires WellFormed(es) && Dates.Valid(today)
    requires arg == NoDate || arg == DateText("")
    requires !IsBlank(text)
    ensures Added(es, text, arg, sourceType, tags, mood, today).Success?
    ensures es == [] ==> Added(es, text, arg, sourceType, tags, mood, today).value.date == today
    ensures forall k :: 0 <= k < |es| ==> NotAfter(es[k].date, Added(es, text, arg, sourceType, tags, mood, today).value.date)
    ensures es != [] ==> exists k :: 0 <= k < |es| && es[k].date == Added(es, text, arg, sourceType, tags, mood, today).value.date
  {
    if es != [] {
      MaxDateOccurs(es);
    }
  }

  /** A date string is parsed; the stored date is the parsed one. */
  lemma AddedParsesDate(es: seq<Entry>, text: string, s: string, sourceType: string,
                        tags: Option<string>, mood: Option<string>, today: Date)
    requires WellFormed(es) && Dates.Valid(today)
    requires s != "" && ParseIsoDate(s).Some? && !IsBlank(text)
    ensures Added(es, text, DateText(s), sourceType, tags, mood, today).Success?
    ensures Added(es, text, DateText(s), sourceType, tags, mood, today).value.date == ParseIsoDate(s).value
  {
  }

  /** Missing or empty tags and mood are stored as `""`; given ones as they are. */
  lemma AddedDefaults(es: seq<Entry>, text: string, arg: DateArg, sourceType: string,
                      tags: Option<string>, mood: Option<string>, today: Date)
    requires WellFormed(es) && Dates.Valid(today) && (arg.DateValue? ==> Dates.Valid(arg.value))
    requires Added(es, text, arg, sourceType, tags, mood, today).Success?
    ensures tags.None? ==> Added(es, text, arg, sourceType, tags, mood, today).value.tags == ""
    ensures tags.Some? ==> Added(es, text, arg, sourceType, tags, mood, today).value.tags == tags.value
    ensures mood.None? ==> Added(es, text, arg, sourceType, tags, mood, today).value.mood == ""
    ensures mood.Some? ==> Added(es, text, arg, sourceType, tags, mood, today).value.mood == mood.value
  {
  }

  // ------------------------------------------------------------- queries

  /** `get_entry_by_id`: the row with that id, if there is one; a negative id finds none. */
  function EntryById(es: seq<Entry>, id: int): (r: Option<Entry>)
    ensures r.Some? ==> r.value in es && r.value.id == id
    ensures r.None? <==> forall k :: 0 <= k < |es| ==> es[k].id != id
  {
    if es == [] then None
    else if es[0].id == id then Some(es[0])
    else EntryById(es[1..], id)
  }

  /** After an insert the new row is found by its id, and every other id finds what it found before. */
  lemma {:induction false} EntryByIdAfterAppend(es: seq<Entry>, e: Entry, id: int)
    requires IdsIncreasing(es) && e.id == NextId(es)
    ensures EntryById(es + [e], id) == if id == e.id then Some(e) else EntryById(es, id)
  {
    if es == [] {
      assert ([] + [e])[1..] == [];
    } else {
      assert (es + [e])[1..] == es[1..] + [e];
      if es[0].id != id {
        assert NextId(es[1..]) == e.id || es[1..] == [];
        if es[1..] == [] {
          assert EntryById(es[1..] + [e], id) == if id == e.id then Some(e) else None;
        } else {
          EntryByIdAfterAppend(es[1..], e, id);
        }
      }
    }
  }

  /** Order of `ORDER BY date`, with rows of the same date in id order. */
  predicate KeyBefore(a: Entry, b: Entry)
  {
    Before(a.date, b.date) || (a.date == b.date && a.id < b.id)
  }

  predicate SortedByKey(s: seq<Entry>)
  {
    forall i, j :: 0 <= i < j < |s| ==> KeyBefore(s[i], s[j])
  }

  predicate DistinctIds(s: seq<Entry>)
  {
    forall i, j :: 0 <= i < |s| && 0 <= j < |s| && i != j ==> s[i].id != s[j].id
  }

  function InsertByKey(e: Entry, s: seq<Entry>): (r: seq<Entry>)
    ensures multiset(r) == multiset(s) + multiset{e}
    ensures |r| == |s| + 1
  {
    if s == [] then [e]
    else
      assert s == [s[0]] + s[1..];
      if KeyBefore(s[0], e) then [s[0]] + InsertByKey(e, s[1..])
      else [e] + s
  }

  lemma {:induction false} InsertByKeySorted(e: Entry, s: seq<Entry>)
    requires SortedByKey(s) && forall k :: 0 <= k < |s| ==> s[k].id != e.id
    ensures SortedByKey(InsertByKey(e, s))
  {
    if s != [] && KeyBefore(s[0], e) {
      InsertByKeySorted(e, s[1..]);
      var r := InsertByKey(e, s);
      var t := InsertByKey(e, s[1..]);
      assert r == [s[0]] + t;
      forall j | 1 <= j < |r| ensures KeyBefore(s[0], r[j]) {
        assert r[j] in multiset(t);
        assert r[j] in multiset(s[1..]) || r[j] == e;
        if r[j] != e {
          var k :| 0 <= k < |s[1..]| && s[1..][k] == r[j];
          assert s[k + 1] == r[j];
        }
      }
    } else if s != [] {
      var r := InsertByKey(e, s);
      forall j | 1 <= j < |r| ensures KeyBefore(e, r[j]) {
        assert r[j] == s[j - 1];
        assert KeyBefore(e, s[0]) by {
          assert s[0].id != e.id;
        }
      }
    }
  }

  /** `get_all_entries_grouped_by_date`, as an insertion sort. */
  function SortByDate(es: seq<Entry>): (r: seq<Entry>)
    ensures multiset(r) == multiset(es)
    ensures |r| == |es|
  {
    if es == [] then []
    else
      assert es == [es[0]] + es[1..];
      InsertByKey(es[0], SortByDate(es[1..]))
  }

  /** Rows with distinct ids come out ordered by date, and by id within a date. */
  lemma {:induction false} SortByDateSorted(es: seq<Entry>)
    requires DistinctIds(es)
    ensures SortedByKey(SortByDate(es))
    ensures forall i, j :: 0 <= i < j < |es| ==> NotAfter(SortByDate(es)[i].date, SortByDate(es)[j].date)
  {
    if es != [] {
      var rest := SortByDate(es[1..]);
      assert DistinctIds(es[1..]) by {
        forall i, j | 0 <= i < |es[1..]| && 0 <= j < |es[1..]| && i != j ensures es[1..][i].id != es[1..][j].id {
          assert es[1..][i] == es[i + 1] && es[1..][j] == es[j + 1];
        }
      }
      SortByDateSorted(es[1..]);
      forall k | 0 <= k < |rest| ensures rest[k].id != es[0].id {
        assert rest[k] in multiset(es[1..]);
        var m :| 0 <= m < |es[1..]| && es[1..][m] == rest[k];
        assert es[m + 1] == rest[k];
      }
      InsertByKeySorted(es[0], rest);
    }
  }

  lemma IncreasingIdsDistinct(es: seq<Entry>)
    requires IdsIncreasing(es)
    ensures DistinctIds(es)
  {
    forall i, j | 0 <= i < |es| && 0 <= j < |es| && i != j ensures es[i].id != es[j].id {
      if i < j { assert es[i].id < es[j].id; } else { assert es[j].id < es[i].id; }
    }
  }

  /** The rows of the table, by ascending date: a permutation of the table, sorted. */
  function EntriesByDate(es: seq<Entry>): (r: seq<Entry>)
    requires IdsIncreasing(es)
    ensures multiset(r) == multiset(es)
    ensures SortedByKey(r)
  {
    IncreasingIdsDistinct(es);
    SortByDateSorted(es);
    SortByDate(es)
  }

  // ------------------------------------------------------------- the table

  class JournalTable {
    var entries: seq<Entry>

    predicate Valid()
      reads this
    {
      WellFormed(entries)
    }

    constructor()
      ensures Valid() && entries == []
    {
      entries := [];
    }

    /** `db.add(row); db.commit()`: the row is stored under the next rowid. */
    method Insert(date: Date, text: string, sourceType: string, tags: string, mood: string) returns (e: Entry)
      requires Valid() && Dates.Valid(date)
      modifies this
      ensures Valid()
      ensures e == Entry(NextId(old(entries)), date, text, sourceType, tags, mood)
      ensures entries == old(entries) + [e]
    {
      e := Entry(NextId(entries), date, text, sourceType, tags, mood);
      AppendNext(entries, e);
      entries := entries + [e];
    }

    /** `add_entry`: one new row on success, none on `ValueError`. */
    method AddEntry(text: string, date: DateArg, sourceType: string, tags: Option<string>,
                    mood: Option<string>, today: Date) returns (r: Result<Entry, Error>)
      requires Valid() && Dates.Valid(today) && (date.DateValue? ==> Dates.Valid(date.value))
      modifies this
      ensures Valid()
      ensures r == Added(old(entries), text, date, sourceType, tags, mood, today)
      ensures r.Success? ==> entries == old(entries) + [r.value]
      ensures r.Failure? ==> entries == old(entries)
    {
      if IsBlank(text) {
        return Failure(ValueError("Journal entry text cannot be empty."));
      }
      var d := today;
      if date.DateValue? {
        d := date.value;
      } else if date.DateText? && date.text != "" {
        var parsed := ParseIsoDate(date.text);
        if parsed.None? {
          return Failure(ValueError("time data does not match format '%Y-%m-%d'"));
        }
        d := parsed.value;
      } else {
        d := DefaultDate(entries, today);
      }
      var e := Insert(d, text, sourceType, tags.GetOr(""), mood.GetOr(""));
      return Success(e);
    }

    /** `reset_database`: every row is deleted, so ids start again at 1. */
    method ResetDatabase()
      modifies this
      ensures Valid() && entries == []
      ensures NextId(entries) == 1
    {
      entries := [];
    }
  }
}
