/**
 * File import: a JSON list of records, an audio recording, an image or a
 * plain text file becomes journal rows and vector points. Every row written
 * is paired with one point whose payload repeats the row's date, tags, mood
 * and text, except the last row of an import the embedder ended: the row is
 * committed before its text is embedded, so it stays without a point.
 *
 * The outside world is the `Env`: the model server, the embedder, the file
 * system, the transcriber and the OCR reader, each a function, and today's
 * date. An exception that the code does not catch ends the import; the rows
 * and points written before it stay written (each row is committed on its
 * own), which `Outcome` records as an `abort` next to the stores.
 */
module Processor {
  import opened Wrappers
  import opened Text
  import opened Dates
  import Json
  import opened Llm
  import opened Paths
  import Crud
  import Tagger
  import MoodLabeler
  import opened VectorStore

  /**
   * The services the importer calls. `embed` gives `None` where the embedder
   * raises; `loadJson`, `transcribe`, `ocr` and `readText` give `None` where
   * opening, decoding or reading the file raises.
   */
  datatype Env = Env(
    llm: Prompt -> Reply,
    embed: string -> Option<seq<real>>,
    fileExists: string -> bool,
    loadJson: string -> Option<Json.Value>,
    transcribe: string -> Option<string>,
    ocr: string -> Option<string>,
    readText: string -> Option<string>,
    today: Date)

  /** The exception that ends an import. */
  datatype Abort =
    | TaggingFailed               // `auto_generate_tags` raised `ValueError`
    | EntryRejected(message: string)  // `add_entry` raised `ValueError`
    | CleaningFailed              // the model call that cleans a text raised
    | TypeError                   // the JSON is not iterable, or a date is not a string
    | AttributeError              // a record is not an object, or its text is not a string
    | EmbeddingFailed             // the embedder raised after the row was committed
    | ReadFailed                  // the file could not be read, decoded, transcribed or scanned

  /** The journal table and the vector collection. */
  datatype Stores = Stores(entries: seq<Crud.Entry>, points: seq<Point>)

  datatype Outcome = Outcome(abort: Option<Abort>, stores: Stores)

  const AudioTypes: seq<string> := [".mp3", ".wav", ".m4a"]
  const ImageTypes: seq<string> := [".jpg", ".jpeg", ".png"]

  // ---------------------------------------------------------------- rows and points

  /** The point's payload repeats the row's date, tags, mood and text. */
  predicate Mirrors(e: Crud.Entry, p: Point)
  {
    Dates.Valid(e.date) && p.payload.date == IsoFormat(e.date)
    && p.payload.tags == e.tags && p.payload.mood == e.mood && p.payload.text == e.text
  }

  predicate Paired(es: seq<Crud.Entry>, ps: seq<Point>)
  {
    |es| == |ps| && forall k :: 0 <= k < |es| ==> Mirrors(es[k], ps[k])
  }

  /** `after` keeps everything in `before` and adds rows and points that pair up, in order. */
  predicate Extends(before: Stores, after: Stores)
  {
    |before.entries| <= |after.entries| && |before.points| <= |after.points|
    && after.entries[..|before.entries|] == before.entries
    && after.points[..|before.points|] == before.points
    && Paired(after.entries[|before.entries|..], after.points[|before.points|..])
  }

  /**
   * What an import leaves: `Extends`, except that when the embedder raised,
   * the last row written has no point.
   */
  predicate Written(before: Stores, o: Outcome)
  {
    if o.abort == Some(EmbeddingFailed) then
      && |before.entries| < |o.stores.entries|
      && Extends(before, Stores(o.stores.entries[..|o.stores.entries| - 1], o.stores.points))
    else Extends(before, o.stores)
  }

  lemma ExtendsRefl(st: Stores)
    ensures Extends(st, st)
  {
    assert st.entries[|st.entries|..] == [];
    assert st.points[|st.points|..] == [];
  }

  lemma ExtendsByOne(st: Stores, e: Crud.Entry, p: Point)
    requires Mirrors(e, p)
    ensures Extends(st, Stores(st.entries + [e], st.points + [p]))
  {
    assert (st.entries + [e])[|st.entries|..] == [e];
    assert (st.points + [p])[|st.points|..] == [p];
  }

  lemma PairedAppend(es1: seq<Crud.Entry>, ps1: seq<Point>, es2: seq<Crud.Entry>, ps2: seq<Point>)
    requires Paired(es1, ps1) && Paired(es2, ps2)
    ensures Paired(es1 + es2, ps1 + ps2)
  {
    forall k | 0 <= k < |es1 + es2| ensures Mirrors((es1 + es2)[k], (ps1 + ps2)[k]) {
      if k < |es1| {
        assert (es1 + es2)[k] == es1[k] && (ps1 + ps2)[k] == ps1[k];
      } else {
        assert (es1 + es2)[k] == es2[k - |es1|] && (ps1 + ps2)[k] == ps2[k - |es1|];
      }
    }
  }

  /** A row committed without a point, right before the embedder raised. */
  lemma WrittenUnembedded(st: Stores, e: Crud.Entry)
    ensures Written(st, Outcome(Some(EmbeddingFailed), Stores(st.entries + [e], st.points)))
  {
    assert (st.entries + [e])[..|st.entries|] == st.entries;
    ExtendsRefl(st);
  }

  /** What follows a completed write is written after it. */
  lemma ExtendsThenWritten(a: Stores, b: Stores, o: Outcome)
    requires Extends(a, b) && Written(b, o)
    ensures Written(a, o)
  {
    if o.abort == Some(EmbeddingFailed) {
      ExtendsTrans(a, b, Stores(o.stores.entries[..|o.stores.entries| - 1], o.stores.points));
    } else {
      ExtendsTrans(a, b, o.stores);
    }
  }

  lemma ExtendsTrans(a: Stores, b: Stores, c: Stores)
    requires Extends(a, b) && Extends(b, c)
    ensures Extends(a, c)
  {
    var na, nb := |a.entries|, |b.entries|;
    var ma, mb := |a.points|, |b.points|;
    assert c.entries[..na] == c.entries[..nb][..na];
    assert c.points[..ma] == c.points[..mb][..ma];
    assert c.entries[na..] == c.entries[..nb][na..] + c.entries[nb..];
    assert c.points[ma..] == c.points[..mb][ma..] + c.points[mb..];
    PairedAppend(b.entries[na..], b.points[ma..], c.entries[nb..], c.points[mb..]);
  }

  // ---------------------------------------------------------------- one text

  /**
   * Tags, mood, `add_entry`, embedding and the point, as each import path
   * does them; `embedText` is what is embedded, `source` the payload's
   * optional `source` field.
   */
  function IngestOutcome(env: Env, st: Stores, text: string, date: Crud.DateArg, sourceType: string,
                         embedText: string, source: Option<string>): (o: Outcome)
    requires Dates.Valid(env.today) && Crud.WellFormed(st.entries)
    requires date.DateValue? ==> Dates.Valid(date.value)
    ensures Crud.WellFormed(o.stores.entries)
    ensures Written(st, o)
    ensures o.abort.Some? && o.abort != Some(EmbeddingFailed) ==> o.stores == st
    ensures o.abort == Some(EmbeddingFailed) ==> o.stores.points == st.points
    ensures o.abort.None? || o.abort == Some(EmbeddingFailed) ==> |o.stores.entries| == |st.entries| + 1
  {
    match Tagger.AutoGenerateTags(env.llm, text)
    case Failure(_) =>
      ExtendsRefl(st);
      Outcome(Some(TaggingFailed), st)
    case Success(tags) =>
      var mood := MoodLabeler.DetectMood(env.llm, text);
      match Crud.Added(st.entries, text, date, sourceType, Some(tags), Some(mood), env.today)
      case Failure(e) =>
        ExtendsRefl(st);
        Outcome(Some(EntryRejected(e.message)), st)
      case Success(row) =>
        Crud.AppendNext(st.entries, row);
        match env.embed(embedText)
        case None =>
          WrittenUnembedded(st, row);
          Outcome(Some(EmbeddingFailed), Stores(st.entries + [row], st.points))
        case Some(vector) =>
          var p := Point(vector, Payload(IsoFormat(row.date), tags, mood, text, source));
          ExtendsByOne(st, row, p);
          Outcome(None, Stores(st.entries + [row], st.points + [p]))
  }

  /**
   * An ingest stops only because the tagger raised, because `add_entry`
   * refused a blank text or an unparsable date string, or because the
   * embedder raised once the row was in.
   */
  lemma IngestAborts(env: Env, st: Stores, text: string, date: Crud.DateArg, sourceType: string,
                     embedText: string, source: Option<string>)
    requires Dates.Valid(env.today) && Crud.WellFormed(st.entries)
    requires date.DateValue? ==> Dates.Valid(date.value)
    ensures var o := IngestOutcome(env, st, text, date, sourceType, embedText, source);
      && (o.abort == Some(TaggingFailed) <==> Tagger.AutoGenerateTags(env.llm, text).Failure?)
      && (o.abort.Some? && o.abort.value.EntryRejected? <==>
            Tagger.AutoGenerateTags(env.llm, text).Success?
            && (IsBlank(text) || (date.DateText? && date.text != "" && ParseIsoDate(date.text).None?)))
      && (o.abort == Some(EmbeddingFailed) <==>
            Tagger.AutoGenerateTags(env.llm, text).Success?
            && !IsBlank(text) && !(date.DateText? && date.text != "" && ParseIsoDate(date.text).None?)
            && env.embed(embedText).None?)
      && (o.abort.Some? ==> o.abort.value.TaggingFailed? || o.abort.value.EntryRejected? || o.abort.value.EmbeddingFailed?)
  {
  }

  /** The row an ingest commits, and the point it adds when the embedder answers. */
  lemma IngestAdds(env: Env, st: Stores, text: string, date: Crud.DateArg, sourceType: string,
                   embedText: string, source: Option<string>)
    requires Dates.Valid(env.today) && Crud.WellFormed(st.entries)
    requires date.DateValue? ==> Dates.Valid(date.value)
    requires var o := IngestOutcome(env, st, text, date, sourceType, embedText, source);
      o.abort.None? || o.abort == Some(EmbeddingFailed)
    ensures var o := IngestOutcome(env, st, text, date, sourceType, embedText, source);
      var row := o.stores.entries[|st.entries|];
      && row.id == Crud.NextId(st.entries)
      && row.text == text && row.sourceType == sourceType
      && row.tags == Tagger.AutoGenerateTags(env.llm, text).value
      && row.mood == MoodLabeler.DetectMood(env.llm, text)
      && Crud.ResolveDate(st.entries, date, env.today) == Success(row.date)
      && (o.abort.None? ==>
            && env.embed(embedText).Some?
            && o.stores.points[|st.points|].vector == env.embed(embedText).value
            && o.stores.points[|st.points|].payload.source == source)
  {
    var o := IngestOutcome(env, st, text, date, sourceType, embedText, source);
    var tags := Tagger.AutoGenerateTags(env.llm, text).value;
    var mood := MoodLabeler.DetectMood(env.llm, text);
    var row := Crud.Added(st.entries, text, date, sourceType, Some(tags), Some(mood), env.today).value;
    assert o.stores.entries == st.entries + [row];
    assert o.stores.entries[|st.entries|] == row;
  }

  /**
   * A non-blank text whose tags the model gives is stored, under the date
   * `add_entry` resolves; it gets its point unless the embedder raises.
   */
  lemma IngestStores(env: Env, st: Stores, text: string, date: Crud.DateArg, sourceType: string,
                     embedText: string, source: Option<string>, d: Date)
    requires Dates.Valid(env.today) && Crud.WellFormed(st.entries)
    requires date.DateValue? ==> Dates.Valid(date.value)
    requires !IsBlank(text) && Tagger.AutoGenerateTags(env.llm, text).Success?
    requires Crud.ResolveDate(st.entries, date, env.today) == Success(d)
    ensures var o := IngestOutcome(env, st, text, date, sourceType, embedText, source);
      && (o.abort.None? <==> env.embed(embedText).Some?)
      && (o.abort.Some? ==> o.abort == Some(EmbeddingFailed))
      && |o.stores.entries| == |st.entries| + 1
      && o.stores.entries[|st.entries|].date == d
      && o.stores.entries[|st.entries|].text == text
      && o.stores.entries[|st.entries|].sourceType == sourceType
      && (o.abort.None? ==>
            && o.stores.points[|st.points|].vector == env.embed(embedText).value
            && o.stores.points[|st.points|].payload.source == source)
  {
    IngestAborts(env, st, text, date, sourceType, embedText, source);
    IngestAdds(env, st, text, date, sourceType, embedText, source);
  }

  /** A stripped, non-empty text is never refused as blank. */
  lemma StrippedNotBlank(s: string)
    requires Strip(s) == s && s != []
    ensures !IsBlank(s)
  {
    BlankIffStripEmpty(s);
  }

  // ---------------------------------------------------------------- JSON records

  /**
   * What `for entry in entries` visits: a list's items. An empty object or
   * string yields nothing; a non-empty one yields keys or characters, whose
   * missing `get` raises `AttributeError`; `null`, booleans and numbers are
   * not iterable.
   */
  function RecordsOf(v: Json.Value): (r: Result<seq<Json.Value>, Abort>)
    ensures r.Success? <==> v.Array? || v == Json.Object(map[]) || v == Json.Str([])
    ensures r.Success? && v.Array? ==> r.value == v.items
    ensures r.Success? && !v.Array? ==> r.value == []
    ensures r.Failure? ==> (r.error == TypeError <==> v.Null? || v.Bool? || v.Number?)
    ensures r.Failure? ==> r.error == TypeError || r.error == AttributeError
  {
    match v
    case Array(items) => Success(items)
    case Object(fields) => if fields == map[] then Success([]) else Failure(AttributeError)
    case Str(s) => if s == [] then Success([]) else Failure(AttributeError)
    case _ => Failure(TypeError)
  }

  /**
   * The date a record is filed under: none for a missing or falsy `date`,
   * the parsed date, or today when the string does not parse. A truthy
   * non-string raises `TypeError` inside `strptime`, which is not caught.
   */
  function RecordDate(env: Env, rawDate: Json.Value): (r: Result<Option<Date>, Abort>)
    requires Dates.Valid(env.today)
    ensures r.Failure? <==> Json.Truthy(rawDate) && !rawDate.Str?
    ensures r.Failure? ==> r.error == TypeError
    ensures r.Success? ==> (r.value.None? <==> !Json.Truthy(rawDate))
    ensures r.Success? && r.value.Some? ==> Dates.Valid(r.value.value)
    ensures rawDate.Str? && ParseIsoDate(rawDate.s).Some? ==> r == Success(ParseIsoDate(rawDate.s))
    ensures rawDate.Str? && rawDate.s != [] && ParseIsoDate(rawDate.s).None? ==> r == Success(Some(env.today))
  {
    if !Json.Truthy(rawDate) then Success(None)
    else if !rawDate.Str? then Failure(TypeError)
    else if ParseIsoDate(rawDate.s).Some? then Success(ParseIsoDate(rawDate.s))
    else Success(Some(env.today))
  }

  /**
   * One record. With a date and a non-blank text it is stored as it is
   * (stripped text; the unstripped text is embedded). Otherwise the model is
   * asked to clean the whole record, and a non-empty answer is stored under
   * today's date; an empty one is skipped.
   */
  function RecordOutcome(env: Env, st: Stores, record: Json.Value): (o: Outcome)
    requires Dates.Valid(env.today) && Crud.WellFormed(st.entries)
    ensures Crud.WellFormed(o.stores.entries)
    ensures Written(st, o)
    ensures o.abort.Some? && o.abort != Some(EmbeddingFailed) ==> o.stores == st
    ensures o.abort == Some(EmbeddingFailed) ==> o.stores.points == st.points
    ensures |o.stores.entries| <= |st.entries| + 1
    ensures !record.Object? ==> o == Outcome(Some(AttributeError), st)
  {
    if !record.Object? then
      ExtendsRefl(st);
      Outcome(Some(AttributeError), st)
    else
      var rawDate := Json.Get(record.fields, "date");
      var text := Json.Get(record.fields, "text");
      match RecordDate(env, rawDate)
      case Failure(a) =>
        ExtendsRefl(st);
        Outcome(Some(a), st)
      case Success(date) =>
        if date.Some? && Json.Truthy(text) && !text.Str? then
          ExtendsRefl(st);
          Outcome(Some(AttributeError), st)
        else if date.Some? && Json.Truthy(text) && !IsBlank(text.s) then
          IngestOutcome(env, st, Strip(text.s), Crud.DateValue(date.value), "text", text.s, None)
        else
          CleanedRecordOutcome(env, st, record, if Json.Truthy(rawDate) then rawDate.s else IsoFormat(env.today))
  }

  /** The cleaning path of a record, with the date the prompt mentions. */
  function CleanedRecordOutcome(env: Env, st: Stores, record: Json.Value, fallbackDate: string): (o: Outcome)
    requires Dates.Valid(env.today) && Crud.WellFormed(st.entries)
    ensures Crud.WellFormed(o.stores.entries)
    ensures Written(st, o)
    ensures o.abort.Some? && o.abort != Some(EmbeddingFailed) ==> o.stores == st
    ensures o.abort == Some(EmbeddingFailed) ==> o.stores.points == st.points
    ensures |o.stores.entries| <= |st.entries| + 1
    ensures Generate(env.llm, CleanRecordPrompt(fallbackDate, record)).Unavailable? ==> o == Outcome(Some(CleaningFailed), st)
    ensures Generate(env.llm, CleanRecordPrompt(fallbackDate, record)) == Answer("") ==> o == Outcome(None, st)
  {
    match Generate(env.llm, CleanRecordPrompt(fallbackDate, record))
    case Unavailable =>
      ExtendsRefl(st);
      Outcome(Some(CleaningFailed), st)
    case Answer(cleaned) =>
      if cleaned == "" then
        ExtendsRefl(st);
        Outcome(None, st)
      else
        IngestOutcome(env, st, cleaned, Crud.DateValue(env.today), "text", cleaned, None)
  }

  /** The records in order; the first exception ends the loop. */
  function RecordsOutcome(env: Env, st: Stores, records: seq<Json.Value>): (o: Outcome)
    requires Dates.Valid(env.today) && Crud.WellFormed(st.entries)
    ensures Crud.WellFormed(o.stores.entries)
    ensures Written(st, o)
    ensures |o.stores.entries| <= |st.entries| + |records|
    decreases |records|
  {
    if records == [] then
      ExtendsRefl(st);
      Outcome(None, st)
    else
      var first := RecordOutcome(env, st, records[0]);
      if first.abort.Some? then first
      else
        var rest := RecordsOutcome(env, first.stores, records[1..]);
        ExtendsThenWritten(st, first.stores, rest);
        rest
  }

  /** Once a record raises, the records after it are never looked at. */
  lemma {:induction false} RecordsOutcomeAppend(env: Env, st: Stores, rs: seq<Json.Value>, more: seq<Json.Value>)
    requires Dates.Valid(env.today) && Crud.WellFormed(st.entries)
    ensures var o := RecordsOutcome(env, st, rs);
      RecordsOutcome(env, st, rs + more) == if o.abort.Some? then o else RecordsOutcome(env, o.stores, more)
    decreases |rs|
  {
    if rs == [] {
      assert [] + more == more;
    } else {
      assert (rs + more)[0] == rs[0];
      assert (rs + more)[1..] == rs[1..] + more;
      var first := RecordOutcome(env, st, rs[0]);
      if first.abort.None? {
        RecordsOutcomeAppend(env, first.stores, rs[1..], more);
      }
    }
  }

  /**
   * A record with a usable date and a non-blank text string goes straight to
   * the ingest.
   */
  lemma RecordIngests(env: Env, st: Stores, fields: map<string, Json.Value>, d: Date, text: string)
    requires Dates.Valid(env.today) && Crud.WellFormed(st.entries)
    requires RecordDate(env, Json.Get(fields, "date")) == Success(Some(d))
    requires Json.Get(fields, "text") == Json.Str(text) && !IsBlank(text)
    ensures RecordOutcome(env, st, Json.Object(fields))
         == IngestOutcome(env, st, Strip(text), Crud.DateValue(d), "text", text, None)
  {
  }

  /**
   * A record with a parsable date and a non-blank text, whose tags the model
   * gives, is stored with that date and its text stripped; no cleaning is
   * asked for. The unstripped text is embedded, and only the embedder can
   * still stop the import, after the row is in.
   */
  lemma WellFormedRecordStored(env: Env, st: Stores, fields: map<string, Json.Value>, date: string, text: string)
    requires Dates.Valid(env.today) && Crud.WellFormed(st.entries)
    requires Json.Get(fields, "date") == Json.Str(date) && ParseIsoDate(date).Some?
    requires Json.Get(fields, "text") == Json.Str(text) && !IsBlank(text)
    requires Tagger.AutoGenerateTags(env.llm, Strip(text)).Success?
    ensures var o := RecordOutcome(env, st, Json.Object(fields));
      && (o.abort.None? <==> env.embed(text).Some?)
      && (o.abort.Some? ==> o.abort == Some(EmbeddingFailed))
      && |o.stores.entries| == |st.entries| + 1
      && o.stores.entries[|st.entries|].date == ParseIsoDate(date).value
      && o.stores.entries[|st.entries|].text == Strip(text)
      && (o.abort.None? ==> o.stores.points[|st.points|].vector == env.embed(text).value)
  {
    var t, d := Strip(text), ParseIsoDate(date).value;
    BlankIffStripEmpty(text);
    StripOfStripped(text);
    StrippedNotBlank(t);
    IngestStores(env, st, t, Crud.DateValue(d), "text", text, None, d);
    RecordIngests(env, st, fields, d, text);
  }

  /** A date string that does not parse files the record under today. */
  lemma UnparsableDateIsToday(env: Env, st: Stores, fields: map<string, Json.Value>, date: string, text: string)
    requires Dates.Valid(env.today) && Crud.WellFormed(st.entries)
    requires Json.Get(fields, "date") == Json.Str(date) && date != [] && ParseIsoDate(date).None?
    requires Json.Get(fields, "text") == Json.Str(text) && !IsBlank(text)
    requires Tagger.AutoGenerateTags(env.llm, Strip(text)).Success?
    ensures var o := RecordOutcome(env, st, Json.Object(fields));
      && (o.abort.None? <==> env.embed(text).Some?)
      && |o.stores.entries| == |st.entries| + 1
      && o.stores.entries[|st.entries|].date == env.today
  {
    var t := Strip(text);
    BlankIffStripEmpty(text);
    StripOfStripped(text);
    StrippedNotBlank(t);
    IngestStores(env, st, t, Crud.DateValue(env.today), "text", text, None, env.today);
    RecordIngests(env, st, fields, env.today, text);
  }

  /**
   * A record without a date is cleaned by the model; a non-empty answer is
   * stored as the text, under today, and the prompt mentions today.
   */
  lemma UndatedRecordCleaned(env: Env, st: Stores, fields: map<string, Json.Value>, cleaned: string)
    requires Dates.Valid(env.today) && Crud.WellFormed(st.entries)
    requires !Json.Truthy(Json.Get(fields, "date"))
    requires Generate(env.llm, CleanRecordPrompt(IsoFormat(env.today), Json.Object(fields))) == Answer(cleaned)
    requires cleaned != [] && Tagger.AutoGenerateTags(env.llm, cleaned).Success?
    ensures var o := RecordOutcome(env, st, Json.Object(fields));
      && (o.abort.None? <==> env.embed(cleaned).Some?)
      && |o.stores.entries| == |st.entries| + 1
      && o.stores.entries[|st.entries|].date == env.today
      && o.stores.entries[|st.entries|].text == cleaned
  {
    CleanedRecordStored(env, st, Json.Object(fields), IsoFormat(env.today), cleaned);
  }

  /**
   * A record with a usable date but a missing, falsy or blank text is sent
   * for cleaning too, and the prompt carries the record's own date string;
   * a non-empty answer is still filed under today.
   */
  lemma DatedBlankRecordCleaned(env: Env, st: Stores, fields: map<string, Json.Value>, d: Date)
    requires Dates.Valid(env.today) && Crud.WellFormed(st.entries)
    requires RecordDate(env, Json.Get(fields, "date")) == Success(Some(d))
    requires var text := Json.Get(fields, "text"); !Json.Truthy(text) || (text.Str? && IsBlank(text.s))
    ensures Json.Get(fields, "date").Str?
    ensures RecordOutcome(env, st, Json.Object(fields))
         == CleanedRecordOutcome(env, st, Json.Object(fields), Json.Get(fields, "date").s)
  {
  }

  /** A non-empty cleaned answer whose tags the model gives is stored as the text, under today. */
  lemma CleanedRecordStored(env: Env, st: Stores, record: Json.Value, fallbackDate: string, cleaned: string)
    requires Dates.Valid(env.today) && Crud.WellFormed(st.entries)
    requires Generate(env.llm, CleanRecordPrompt(fallbackDate, record)) == Answer(cleaned)
    requires cleaned != [] && Tagger.AutoGenerateTags(env.llm, cleaned).Success?
    ensures var o := CleanedRecordOutcome(env, st, record, fallbackDate);
      && (o.abort.None? <==> env.embed(cleaned).Some?)
      && |o.stores.entries| == |st.entries| + 1
      && o.stores.entries[|st.entries|].date == env.today
      && o.stores.entries[|st.entries|].text == cleaned
  {
    StrippedNotBlank(cleaned);
    IngestStores(env, st, cleaned, Crud.DateValue(env.today), "text", cleaned, None, env.today);
  }

  /** A dated record whose text is truthy but not a string raises `AttributeError` at `text.strip()`. */
  lemma DatedNonStringTextRaises(env: Env, st: Stores, fields: map<string, Json.Value>, d: Date)
    requires Dates.Valid(env.today) && Crud.WellFormed(st.entries)
    requires RecordDate(env, Json.Get(fields, "date")) == Success(Some(d))
    requires Json.Truthy(Json.Get(fields, "text")) && !Json.Get(fields, "text").Str?
    ensures RecordOutcome(env, st, Json.Object(fields)) == Outcome(Some(AttributeError), st)
  {
  }

  /**
   * `add_entry` never refuses a record: the texts handed to it are stripped
   * and non-empty, and its dates are date objects.
   */
  lemma RecordNeverRejected(env: Env, st: Stores, record: Json.Value)
    requires Dates.Valid(env.today) && Crud.WellFormed(st.entries)
    ensures var o := RecordOutcome(env, st, record);
      o.abort.Some? ==> !o.abort.value.EntryRejected?
  {
    if record.Object? {
      var rawDate := Json.Get(record.fields, "date");
      var text := Json.Get(record.fields, "text");
      var date := RecordDate(env, rawDate);
      if date.Success? && date.value.Some? && text.Str? && Json.Truthy(text) && !IsBlank(text.s) {
        BlankIffStripEmpty(text.s);
        StripOfStripped(text.s);
        StrippedNotBlank(Strip(text.s));
        IngestAborts(env, st, Strip(text.s), Crud.DateValue(date.value.value), "text", text.s, None);
      } else if date.Success? {
        var fallback := if Json.Truthy(rawDate) then rawDate.s else IsoFormat(env.today);
        var reply := Generate(env.llm, CleanRecordPrompt(fallback, record));
        if reply.Answer? && reply.text != "" {
          StrippedNotBlank(reply.text);
          IngestAborts(env, st, reply.text, Crud.DateValue(env.today), "text", reply.text, None);
        }
      }
    }
  }

  // ---------------------------------------------------------------- raw text

  /**
   * `handle_raw_entry`: blank input is ignored; otherwise the model cleans
   * the stripped text, an empty answer is dropped, and the answer is stored
   * under today's date written as text, with the source in the payload.
   */
  function RawEntryOutcome(env: Env, st: Stores, raw: string, source: string): (o: Outcome)
    requires Dates.Valid(env.today) && Crud.WellFormed(st.entries)
    ensures Crud.WellFormed(o.stores.entries)
    ensures Written(st, o)
    ensures o.abort.Some? && o.abort != Some(EmbeddingFailed) ==> o.stores == st
    ensures o.abort == Some(EmbeddingFailed) ==> o.stores.points == st.points
    ensures |o.stores.entries| <= |st.entries| + 1
    ensures IsBlank(raw) ==> o == Outcome(None, st)
  {
    if IsBlank(raw) then
      ExtendsRefl(st);
      Outcome(None, st)
    else
      var today := IsoFormat(env.today);
      match Generate(env.llm, CleanRawPrompt(today, Strip(raw)))
      case Unavailable =>
        ExtendsRefl(st);
        Outcome(Some(CleaningFailed), st)
      case Answer(cleaned) =>
        if cleaned == "" then
          ExtendsRefl(st);
          Outcome(None, st)
        else
          IngestOutcome(env, st, cleaned, Crud.DateText(today), source, cleaned, Some(source))
  }

  /**
   * A stored raw entry: the cleaned text, today's date read back from its
   * ISO form, the source as source type and, once embedded, payload field.
   * `add_entry` never refuses it.
   */
  lemma RawEntryStored(env: Env, st: Stores, raw: string, source: string)
    requires Dates.Valid(env.today) && Crud.WellFormed(st.entries)
    requires !IsBlank(raw)
    ensures var o := RawEntryOutcome(env, st, raw, source);
      var reply := Generate(env.llm, CleanRawPrompt(IsoFormat(env.today), Strip(raw)));
      && (o.abort.Some? ==>
            o.abort.value.TaggingFailed? || o.abort.value.CleaningFailed? || o.abort.value.EmbeddingFailed?)
      && (|o.stores.entries| > |st.entries| ==>
            && reply.Answer?
            && o.stores.entries[|st.entries|].date == env.today
            && o.stores.entries[|st.entries|].text == reply.text
            && o.stores.entries[|st.entries|].sourceType == source
            && (o.abort.None? ==> o.stores.points[|st.points|].payload.source == Some(source)))
  {
    RawEntryStops(env, st, raw, source);
    RawEntryRow(env, st, raw, source);
  }

  lemma RawEntryStops(env: Env, st: Stores, raw: string, source: string)
    requires Dates.Valid(env.today) && Crud.WellFormed(st.entries)
    requires !IsBlank(raw)
    ensures var o := RawEntryOutcome(env, st, raw, source);
      o.abort.Some? ==> o.abort.value.TaggingFailed? || o.abort.value.CleaningFailed? || o.abort.value.EmbeddingFailed?
  {
    var today := IsoFormat(env.today);
    var reply := Generate(env.llm, CleanRawPrompt(today, Strip(raw)));
    if reply.Answer? && reply.text != "" {
      StrippedNotBlank(reply.text);
      IngestAborts(env, st, reply.text, Crud.DateText(today), source, reply.text, Some(source));
      ParseIsoFormat(env.today);
      RawIngests(env, st, raw, source);
    }
  }

  lemma RawEntryRow(env: Env, st: Stores, raw: string, source: string)
    requires Dates.Valid(env.today) && Crud.WellFormed(st.entries)
    requires !IsBlank(raw)
    ensures var o := RawEntryOutcome(env, st, raw, source);
      var reply := Generate(env.llm, CleanRawPrompt(IsoFormat(env.today), Strip(raw)));
      |o.stores.entries| > |st.entries| ==>
        && reply.Answer?
        && o.stores.entries[|st.entries|].date == env.today
        && o.stores.entries[|st.entries|].text == reply.text
        && o.stores.entries[|st.entries|].sourceType == source
        && (o.abort.None? ==> o.stores.points[|st.points|].payload.source == Some(source))
  {
    var today := IsoFormat(env.today);
    var reply := Generate(env.llm, CleanRawPrompt(today, Strip(raw)));
    if reply.Answer? && reply.text != "" {
      StrippedNotBlank(reply.text);
      if Tagger.AutoGenerateTags(env.llm, reply.text).Success? {
        ParseIsoFormat(env.today);
        IngestStores(env, st, reply.text, Crud.DateText(today), source, reply.text, Some(source), env.today);
      } else {
        IngestAborts(env, st, reply.text, Crud.DateText(today), source, reply.text, Some(source));
      }
      RawIngests(env, st, raw, source);
    }
  }

  /** A non-blank raw text whose cleaned form is not empty goes to the ingest under today's date. */
  lemma RawIngests(env: Env, st: Stores, raw: string, source: string)
    requires Dates.Valid(env.today) && Crud.WellFormed(st.entries) && !IsBlank(raw)
    requires var reply := Generate(env.llm, CleanRawPrompt(IsoFormat(env.today), Strip(raw)));
      reply.Answer? && reply.text != ""
    ensures var reply := Generate(env.llm, CleanRawPrompt(IsoFormat(env.today), Strip(raw)));
      RawEntryOutcome(env, st, raw, source)
      == IngestOutcome(env, st, reply.text, Crud.DateText(IsoFormat(env.today)), source, reply.text, Some(source))
  {
  }

  // ---------------------------------------------------------------- import_file

  /**
   * `import_file`: nothing for a missing file; otherwise the handler the
   * lower-cased suffix picks, with anything unknown read as plain text.
   */
  function ImportOutcome(env: Env, st: Stores, path: string): (o: Outcome)
    requires Dates.Valid(env.today) && Crud.WellFormed(st.entries)
    ensures Crud.WellFormed(o.stores.entries)
    ensures Written(st, o)
    ensures !env.fileExists(path) ==> o == Outcome(None, st)
    ensures Extension(path) != ".json" ==> |o.stores.entries| <= |st.entries| + 1
  {
    if !env.fileExists(path) then
      ExtendsRefl(st);
      Outcome(None, st)
    else
      var ext := Extension(path);
      if ext == ".json" then
        (match env.loadJson(path)
         case None =>
           ExtendsRefl(st);
           Outcome(Some(ReadFailed), st)
         case Some(v) =>
           (match RecordsOf(v)
            case Failure(a) =>
              ExtendsRefl(st);
              Outcome(Some(a), st)
            case Success(records) => RecordsOutcome(env, st, records)))
      else
        var raw :=
          if ext in AudioTypes then env.transcribe(path)
          else if ext in ImageTypes then env.ocr(path)
          else env.readText(path);
        var source := if ext in AudioTypes then "audio" else if ext in ImageTypes then "image" else "text";
        match raw
        case None =>
          ExtendsRefl(st);
          Outcome(Some(ReadFailed), st)
        case Some(t) =>
          RawEntryOutcome(env, st, if source == "text" then Strip(t) else t, source)
  }

  /**
   * Which reader an existing file that is not `.json` goes to, by its
   * lower-cased suffix: the three audio suffixes to the transcriber, the
   * three image suffixes to the OCR reader, and anything else to a plain
   * read, stripped (`ImportJson` is the `.json` branch). A file that cannot
   * be read stops the import with nothing written.
   */
  lemma ImportDispatch(env: Env, st: Stores, path: string)
    requires Dates.Valid(env.today) && Crud.WellFormed(st.entries)
    requires env.fileExists(path)
    ensures Extension(path) in AudioTypes ==>
      ImportOutcome(env, st, path)
        == if env.transcribe(path).None? then Outcome(Some(ReadFailed), st)
           else RawEntryOutcome(env, st, env.transcribe(path).value, "audio")
    ensures Extension(path) in ImageTypes ==>
      ImportOutcome(env, st, path)
        == if env.ocr(path).None? then Outcome(Some(ReadFailed), st)
           else RawEntryOutcome(env, st, env.ocr(path).value, "image")
    ensures Extension(path) != ".json" && Extension(path) !in AudioTypes && Extension(path) !in ImageTypes ==>
      ImportOutcome(env, st, path)
        == if env.readText(path).None? then Outcome(Some(ReadFailed), st)
           else RawEntryOutcome(env, st, Strip(env.readText(path).value), "text")
  {
    SuffixListsDisjoint();
    if Extension(path) != ".json" {
      ImportRawFile(env, st, path);
    }
  }

  /** No suffix is both JSON and audio or image, or both audio and image. */
  lemma SuffixListsDisjoint()
    ensures ".json" !in AudioTypes && ".json" !in ImageTypes
    ensures forall x :: x in AudioTypes ==> x !in ImageTypes
  {
  }

  /**
   * An existing `.json` file: a failed load or a value that is not a list of
   * records stops the import with nothing written; otherwise the record loop.
   */
  lemma ImportJson(env: Env, st: Stores, path: string)
    requires Dates.Valid(env.today) && Crud.WellFormed(st.entries)
    requires env.fileExists(path) && Extension(path) == ".json"
    ensures var o := ImportOutcome(env, st, path);
      && (env.loadJson(path).None? ==> o == Outcome(Some(ReadFailed), st))
      && (env.loadJson(path).Some? && RecordsOf(env.loadJson(path).value).Failure? ==>
            o == Outcome(Some(RecordsOf(env.loadJson(path).value).error), st))
      && (env.loadJson(path).Some? && RecordsOf(env.loadJson(path).value).Success? ==>
            o == RecordsOutcome(env, st, RecordsOf(env.loadJson(path).value).value))
  {
  }

  /** The handler and the source name an existing file that is not JSON goes to. */
  lemma ImportRawFile(env: Env, st: Stores, path: string)
    requires Dates.Valid(env.today) && Crud.WellFormed(st.entries)
    requires env.fileExists(path) && Extension(path) != ".json"
    ensures var ext := Extension(path);
      var raw := if ext in AudioTypes then env.transcribe(path)
                 else if ext in ImageTypes then env.ocr(path)
                 else env.readText(path);
      var source := if ext in AudioTypes then "audio" else if ext in ImageTypes then "image" else "text";
      ImportOutcome(env, st, path)
        == if raw.None? then Outcome(Some(ReadFailed), st)
           else RawEntryOutcome(env, st, if source == "text" then Strip(raw.value) else raw.value, source)
  {
  }

  /** The steps of an ingest one by one, as the method takes them. */
  lemma IngestSteps(env: Env, st: Stores, text: string, date: Crud.DateArg, sourceType: string,
                    embedText: string, source: Option<string>)
    requires Dates.Valid(env.today) && Crud.WellFormed(st.entries)
    requires date.DateValue? ==> Dates.Valid(date.value)
    ensures var o := IngestOutcome(env, st, text, date, sourceType, embedText, source);
      Tagger.AutoGenerateTags(env.llm, text).Failure? ==> o == Outcome(Some(TaggingFailed), st)
    ensures var o := IngestOutcome(env, st, text, date, sourceType, embedText, source);
      var tags := Tagger.AutoGenerateTags(env.llm, text);
      var mood := MoodLabeler.DetectMood(env.llm, text);
      tags.Success? ==>
      var row := Crud.Added(st.entries, text, date, sourceType, Some(tags.value), Some(mood), env.today);
      && (row.Failure? ==> o == Outcome(Some(EntryRejected(row.error.message)), st))
      && (row.Success? && env.embed(embedText).None? ==>
            o == Outcome(Some(EmbeddingFailed), Stores(st.entries + [row.value], st.points)))
      && (row.Success? && env.embed(embedText).Some? ==>
            o == Outcome(None, Stores(st.entries + [row.value], st.points
                   + [Point(env.embed(embedText).value, Payload(IsoFormat(row.value.date), tags.value, mood, text, source))])))
  {
  }

  // ---------------------------------------------------------------- the importer

  /** One text into the table and the collection. */
  method Ingest(env: Env, table: Crud.JournalTable, store: Collection, text: string, date: Crud.DateArg,
                sourceType: string, embedText: string, source: Option<string>) returns (abort: Option<Abort>)
    requires table.Valid() && Dates.Valid(env.today)
    requires date.DateValue? ==> Dates.Valid(date.value)
    modifies table, store
    ensures table.Valid()
    ensures Outcome(abort, Stores(table.entries, store.points))
            == IngestOutcome(env, Stores(old(table.entries), old(store.points)), text, date, sourceType, embedText, source)
  {
    ghost var st := Stores(table.entries, store.points);
    IngestSteps(env, st, text, date, sourceType, embedText, source);
    var tags := Tagger.AutoGenerateTags(env.llm, text);
    if tags.Failure? {
      return Some(TaggingFailed);
    }
    var mood := MoodLabeler.DetectMood(env.llm, text);
    var row := table.AddEntry(text, date, sourceType, Some(tags.value), Some(mood), env.today);
    if row.Failure? {
      return Some(EntryRejected(row.error.message));
    }
    abort := StorePoint(env, store, embedText, Payload(IsoFormat(row.value.date), tags.value, mood, text, source));
  }

  /** The embedding of `embedText` upserted with `payload`, unless the embedder raises. */
  method StorePoint(env: Env, store: Collection, embedText: string, payload: Payload) returns (abort: Option<Abort>)
    modifies store
    ensures abort.None? <==> env.embed(embedText).Some?
    ensures abort.Some? ==> abort == Some(EmbeddingFailed) && store.points == old(store.points)
    ensures abort.None? ==> store.points == old(store.points) + [Point(env.embed(embedText).value, payload)]
  {
    var vector := env.embed(embedText);
    if vector.None? {
      return Some(EmbeddingFailed);
    }
    store.Upsert(vector.value, payload);
    return None;
  }

  /** One JSON record. */
  method ImportRecord(env: Env, table: Crud.JournalTable, store: Collection, record: Json.Value)
    returns (abort: Option<Abort>)
    requires table.Valid() && Dates.Valid(env.today)
    modifies table, store
    ensures table.Valid()
    ensures Outcome(abort, Stores(table.entries, store.points))
            == RecordOutcome(env, Stores(old(table.entries), old(store.points)), record)
  {
    if !record.Object? {
      return Some(AttributeError);
    }
    var rawDate := Json.Get(record.fields, "date");
    var text := Json.Get(record.fields, "text");
    var date := RecordDate(env, rawDate);
    if date.Failure? {
      return Some(date.error);
    }
    if date.value.Some? && Json.Truthy(text) && !text.Str? {
      return Some(AttributeError);
    }
    if date.value.Some? && Json.Truthy(text) && !IsBlank(text.s) {
      abort := Ingest(env, table, store, Strip(text.s), Crud.DateValue(date.value.value), "text", text.s, None);
      return;
    }
    var fallback := if Json.Truthy(rawDate) then rawDate.s else IsoFormat(env.today);
    var reply := Generate(env.llm, CleanRecordPrompt(fallback, record));
    if reply.Unavailable? {
      return Some(CleaningFailed);
    }
    if reply.text == "" {
      return None;
    }
    abort := Ingest(env, table, store, reply.text, Crud.DateValue(env.today), "text", reply.text, None);
  }

  /** The loop over the records of a JSON file. */
  method ImportRecords(env: Env, table: Crud.JournalTable, store: Collection, records: seq<Json.Value>)
    returns (abort: Option<Abort>)
    requires table.Valid() && Dates.Valid(env.today)
    modifies table, store
    ensures table.Valid()
    ensures Outcome(abort, Stores(table.entries, store.points))
            == RecordsOutcome(env, Stores(old(table.entries), old(store.points)), records)
  {
    var i := 0;
    while i < |records|
      invariant 0 <= i <= |records|
      invariant table.Valid()
      invariant RecordsOutcome(env, Stores(old(table.entries), old(store.points)), records)
                == RecordsOutcome(env, Stores(table.entries, store.points), records[i..])
    {
      assert records[i..][0] == records[i];
      assert records[i..][1..] == records[i + 1..];
      abort := ImportRecord(env, table, store, records[i]);
      if abort.Some? {
        return;
      }
      i := i + 1;
    }
    return None;
  }

  /** `handle_raw_entry`. */
  method HandleRawEntry(env: Env, table: Crud.JournalTable, store: Collection, raw: string, source: string)
    returns (abort: Option<Abort>)
    requires table.Valid() && Dates.Valid(env.today)
    modifies table, store
    ensures table.Valid()
    ensures Outcome(abort, Stores(table.entries, store.points))
            == RawEntryOutcome(env, Stores(old(table.entries), old(store.points)), raw, source)
  {
    if IsBlank(raw) {
      return None;
    }
    var today := IsoFormat(env.today);
    var reply := Generate(env.llm, CleanRawPrompt(today, Strip(raw)));
    if reply.Unavailable? {
      return Some(CleaningFailed);
    }
    if reply.text == "" {
      return None;
    }
    abort := Ingest(env, table, store, reply.text, Crud.DateText(today), source, reply.text, Some(source));
  }

  /** `import_file`. */
  method ImportFile(env: Env, table: Crud.JournalTable, store: Collection, path: string)
    returns (abort: Option<Abort>)
    requires table.Valid() && Dates.Valid(env.today)
    modifies table, store
    ensures table.Valid()
    ensures Outcome(abort, Stores(table.entries, store.points))
            == ImportOutcome(env, Stores(old(table.entries), old(store.points)), path)
  {
    if !env.fileExists(path) {
      return None;
    }
    ghost var st := Stores(table.entries, store.points);
    var ext := Extension(path);
    if ext == ".json" {
      ImportJson(env, st, path);
      var loaded := env.loadJson(path);
      if loaded.None? {
        return Some(ReadFailed);
      }
      var records := RecordsOf(loaded.value);
      if records.Failure? {
        return Some(records.error);
      }
      abort := ImportRecords(env, table, store, records.value);
    } else if ext in AudioTypes {
      ImportRawFile(env, st, path);
      var raw := env.transcribe(path);
      if raw.None? {
        return Some(ReadFailed);
      }
      abort := HandleRawEntry(env, table, store, raw.value, "audio");
    } else if ext in ImageTypes {
      ImportRawFile(env, st, path);
      var raw := env.ocr(path);
      if raw.None? {
        return Some(ReadFailed);
      }
      abort := HandleRawEntry(env, table, store, raw.value, "image");
    } else {
      ImportRawFile(env, st, path);
      var raw := env.readText(path);
      if raw.None? {
        return Some(ReadFailed);
      }
      abort := HandleRawEntry(env, table, store, Strip(raw.value), "text");
    }
  }
}
