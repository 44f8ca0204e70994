# Serenity journaling backend in Dafny

This project models the core of the serenityai journaling backend. The backend
takes journal entries from several sources and stores each one twice: as a row
of a journal table, and as a point of a vector collection whose payload repeats
the row. Entries arrive as typed text, a JSON list of records, an audio
recording, an image or a plain text file. A local language model cleans raw
text and labels it with tags and a mood. The HTTP routes list, filter and
summarise what has been stored.

Each source file of the core has a module of its own:

- `splitter.dfy` (`Splitter`): `split_text_into_chunks`, the greedy packing of
  words into chunks under a token budget. It is a method with a loop, proved
  against a specification predicate.
- `tagger.dfy` (`Tagger`): `auto_generate_tags` and how it cleans the model's
  answer.
- `mood_labeler.dfy` (`MoodLabeler`): `extract_mood_label` and `detect_mood`.
- `crud.dfy` (`Crud`): `add_entry`, the read queries and `reset_database`. The
  table is a class whose `entries` field the methods update.
- `processor.dfy` (`Processor`): `import_file` and `handle_raw_entry`. Each path
  through them is a function from the stores before to the stores after (with
  the exception that ended the import, if any). Methods that update the table
  and the collection are proved equal to those functions.
- `routes.dfy` (`Routes`): the upload, `clean_tags`, `create_entry` and reset
  routes.
- `tag_queries.dfy` (`TagQueries`): the `list_all_tags` and
  `filter_entries_by_tag` routes.
- `insights.dfy` (`Insights`): the `get_insights` route.

Supporting modules state the library behaviour the code relies on:

- `text.dfy`: Python's `str.strip`, `split`, `join`, `lower`, `title` and string
  order.
- `dates.dfy`: `strptime("%Y-%m-%d")` and `isoformat`.
- `counters.dfy`: `collections.Counter`.
- `paths.dfy`: `Path.suffix`.
- `json.dfy`: JSON values and their truthiness.
- `llm.dfy`: `generate_response`.
- `vector_store.dfy`: the vector collection.
- `wrappers.dfy`: `Option` and `Result`.

The world outside the program is passed in as parameters. The model server,
embedder, file system, transcriber and OCR reader are functions, and today's
date is a value.

Behaviour of the code worth knowing:

- The file importer has no duplicate guard. A record imported twice is stored
  twice, and `Processor.WellFormedRecordStored` puts no condition on the rows
  already stored. Only `create_entry` checks for duplicates.
- The importer has no per-record error handling. The first exception ends the
  whole import (`Processor.RecordsOutcomeAppend`).
- A tagger failure is an exception that ends the import. It is not turned into
  empty tags (`Processor.IngestAborts`).
- The mood label is not restricted to the mood vocabulary. Any clean one-word
  answer is kept as it is (`MoodLabeler.MoodLabelOfCleanInput`).
- The text is embedded only after `add_entry` has committed its row. When the
  embedder raises, the import ends and that row stays without a point
  (`Processor.IngestAborts`, `Processor.Written`).

## Model

| member | source | states |
|---|---|---|
| Splitter.TokenEstimate | backend/utils/splitter.py:11 | a word costs its length divided by four, rounded down, plus one token, so never less than one |
| Splitter.SplitTextIntoChunks | backend/utils/splitter.py:3-23 | the chunks of a text are the greedy chunking of its whitespace-separated words (`Chunking` below) |
| Splitter.PackWords | backend/utils/splitter.py:9-21 | the loop's chunks satisfy `Chunking`: no word is lost, duplicated or reordered; each chunk is its words joined by single spaces; the only empty chunk is a leading one, present exactly when the first word alone is over budget; a chunk over budget holds one word; and a chunk is closed only when the next word does not fit |
| Splitter.PackCut | backend/utils/splitter.py:12-15 | starting a new chunk for a word that does not fit keeps the packing invariant |
| Splitter.PackExtend | backend/utils/splitter.py:16-18 | appending a word that fits to the open chunk keeps the packing invariant |
| Splitter.GroupsOfPacking | backend/utils/splitter.py:12-21 | in a finished packing every group fits or is a single word, every cut was forced, and only a leading group can be empty |
| Splitter.ChunksOfPacking | backend/utils/splitter.py:20-23 | joining the groups of a finished packing gives a non-empty list of chunks that satisfies `Chunking` |
| Splitter.WordsOfChunksIsFlatten | backend/utils/splitter.py:13-21 | when each chunk splits back into its group, the words of all chunks are the groups concatenated in order |
| Text.Words | backend/utils/splitter.py:4 | every word `split()` returns is non-empty and holds no whitespace |
| Text.WordsOfJoin | backend/utils/splitter.py:13 | words joined by single spaces split back into the same words |
| Text.StripChars | backend/llm/tagger.py:13 | `strip(chars)` removes exactly the leading and trailing run of those characters, and leaves a text without them at either end unchanged |
| Text.Strip | backend/api/routes.py:101 | `str.strip()` is `strip` with Python's whitespace set, so `Text.StripChars` applies; the result is never longer |
| Text.StripEnds | backend/api/routes.py:118 | a stripped text neither starts nor ends with whitespace, and a text that does neither is its own strip |
| Text.BlankIffStripEmpty | backend/db/crud.py:15 | a text is blank exactly when stripping it leaves nothing |
| Text.StripOfStripped | backend/upload/processor.py:56-59 | stripping twice is stripping once |
| Text.SplitOn | backend/api/routes.py:248 | `split(",")` gives at least one piece, and no piece contains a comma |
| Text.JoinSplitOn | backend/api/routes.py:248 | joining the pieces of `split(",")` with commas gives the text back |
| Text.SplitOnJoin | backend/api/routes.py:248 | comma-free pieces joined with commas split back into the same pieces |
| Text.SplitOnAfterPiece | backend/api/routes.py:89 | a separator-free piece followed by the separator splits off as one piece |
| Text.SplitOnJoinSpaced | backend/api/routes.py:89 | separator-free pieces joined with the separator and a space split back into the pieces, each after the first led by that space |
| Text.Lower | backend/api/routes.py:248 | `lower()` keeps the length and the whitespace positions, leaves no upper-case letter, and changes nothing in a text without one |
| Text.LowerKeepsStripped | backend/api/routes.py:248 | lower-casing a stripped text leaves it stripped |
| Text.Title | backend/api/routes.py:88 | `title()` keeps the length and the letter positions, and changes no non-letter |
| Text.TitleIdempotent | backend/api/routes.py:88 | title-casing twice is title-casing once |
| Text.TitleKeepsStripped | backend/api/routes.py:88 | title-casing a stripped text leaves it stripped |
| Text.LessTransitive | backend/api/routes.py:251 | the string order `sorted` uses is transitive |
| Text.LessTotal | backend/api/routes.py:251 | any two different strings are ordered one way or the other |
| Llm.Generate | backend/llm/ollama_client.py:10-20 | the call fails exactly when the server fails; otherwise the answer is the server's text stripped, so it is already stripped |
| Tagger.AutoGenerateTags | backend/llm/tagger.py:5-13 | fails (`ValueError`) exactly when the model call fails; otherwise the tags are the cleaned answer, with no newline in them |
| Tagger.RemoveNewlines | backend/llm/tagger.py:13 | `replace("\n", "")` leaves no newline, never lengthens the text, and leaves a newline-free text unchanged |
| Tagger.RemoveNewlinesIsSplitJoin | backend/llm/tagger.py:13 | removing newlines is splitting on them and joining the pieces with nothing |
| Tagger.PostProcess | backend/llm/tagger.py:13 | the cleaned tags have no newline and neither start nor end with a comma |
| Tagger.PostProcessCutsOnlyEnds | backend/llm/tagger.py:13 | the cleaned tags are a contiguous part of the newline-free answer, and everything cut off either end is whitespace or a comma |
| Tagger.PostProcessOfClean | backend/llm/tagger.py:13 | an answer without newlines and without whitespace or commas at its ends is kept as it is |
| Tagger.PostProcessExample | backend/llm/tagger.py:13 | whitespace inside a comma is not removed: `", a\n"` cleans to `" a"`, and cleaning that again gives `"a"` |
| MoodLabeler.RemoveParens | backend/llm/mood_labeler.py:10 | deleting the shortest `(...)` groups never lengthens the text and adds no upper-case letter |
| MoodLabeler.RemoveParensLeavesNoGroup | backend/llm/mood_labeler.py:10 | after the deletion no `(` is followed by a `)` on the same line |
| MoodLabeler.RemoveParensOfClean | backend/llm/mood_labeler.py:10 | a text with no such group is left unchanged |
| MoodLabeler.SepAt | backend/llm/mood_labeler.py:13 | the separator at a position is one character (`;`, `,` or `/`), three (`but`, `and`) or none |
| MoodLabeler.SplitFromPieces | backend/llm/mood_labeler.py:13 | every piece `re.split` gives is separator-free and a contiguous part of the text |
| MoodLabeler.SplitFromSepFree | backend/llm/mood_labeler.py:13 | a separator-free text splits into itself alone |
| MoodLabeler.FirstNonBlank | backend/llm/mood_labeler.py:13-16 | the index found is that of the first non-blank piece, or the number of pieces when all are blank |
| MoodLabeler.FirstLabel | backend/llm/mood_labeler.py:13-18 | when every piece is blank the label is `"neutral"` |
| MoodLabeler.MoodLabelIsLabel | backend/llm/mood_labeler.py:5-18 | every extracted label is non-empty, stripped and lower-case, with no separator and no closed `(...)` group |
| MoodLabeler.MoodLabelOfLabel | backend/llm/mood_labeler.py:5-18 | a text that already has that shape is its own label |
| MoodLabeler.MoodLabelIdempotent | backend/llm/mood_labeler.py:5-18 | extracting the label of a label gives the label back |
| MoodLabeler.MoodLabelOfCleanInput | backend/llm/mood_labeler.py:7-18 | an answer that is clean after lower-casing and stripping is kept whole, inside the mood vocabulary or not |
| MoodLabeler.MoodLabelOfBlank | backend/llm/mood_labeler.py:7-18 | a blank answer gives `"neutral"` |
| MoodLabeler.NeutralIsLabel | backend/llm/mood_labeler.py:18 | the fallback `"neutral"` has the shape of a label |
| MoodLabeler.DetectMood | backend/llm/mood_labeler.py:20-35 | never fails and always returns a label: `"neutral"` when the model call fails, otherwise the label extracted from the answer |
| Dates.ParseIsoDate | backend/db/crud.py:22 | every date `strptime` accepts is a real calendar date |
| Dates.ParseExamples | backend/db/crud.py:22 | one-digit months and days, a space-padded day and 29 February of a leap year are accepted |
| Dates.ParseRejects | backend/db/crud.py:22 | 29 February of a common year, month 13, year 0 and trailing digits are refused |
| Dates.ParseIsoFormat | backend/upload/processor.py:121-141 | today written with `strftime("%Y-%m-%d")` parses back to today |
| Dates.IsoFormat | backend/upload/processor.py:121 | `YYYY-MM-DD`: ten characters, dashes at positions 4 and 7 and digits elsewhere |
| Dates.IsoFormatInjective | backend/api/routes.py:336 | different dates have different day keys |
| Dates.BeforeIsStrictOrder | backend/db/crud.py:19 | the date order `max` uses is a strict total order |
| Paths.Name | backend/api/routes.py:45 | the file name of a path holds no `/` |
| Paths.Suffix | backend/api/routes.py:45 | the suffix is empty, or the final `.`-part of the name (at least two characters), never the whole name |
| Paths.Extension | backend/api/routes.py:45 | `suffix.lower()` has the suffix's length and no upper-case letter; it is empty or a `.` followed by dot-free text, and a suffix with no upper-case letter is kept as it is |
| Paths.SuffixOfStemAndExt | backend/api/routes.py:45 | a non-empty stem followed by an extension has that extension as its suffix |
| Json.Get | backend/upload/processor.py:47-48 | `get` gives the field's value, or null for a missing key |
| VectorStore.Collection.Upsert | backend/vectorstore/qdrant_client.py:43-48 | adding an entry appends exactly one point with that vector and payload |
| VectorStore.Collection.Reset | backend/vectorstore/qdrant_client.py:34-41 | resetting leaves the collection empty |
| Crud.NextId | backend/db/models.py:9 | the next id is at least 1 and above every id in a table whose ids increase |
| Crud.AppendNext | backend/db/crud.py:35-38 | appending a row with the next id and a valid date keeps the table well formed |
| Crud.MaxDate | backend/db/crud.py:19 | there is a latest date exactly when the table is not empty, and no row is after it |
| Crud.ResolveDate | backend/db/crud.py:18-22 | `ValueError` exactly for a non-empty date string that does not parse; a date is kept, a parsable string becomes its date, and no date gives a date no row is after, today for an empty table |
| Crud.MaxDateOccurs | backend/db/crud.py:19 | the latest date is the date of some row |
| Crud.Added | backend/db/crud.py:7-38 | `add_entry` raises exactly when the text is blank or a non-empty date string does not parse; otherwise the row has the next id, the text and source type given, tags and mood with `None` stored as `""`, and the date the arguments resolve to |
| Crud.AddedDefaultDate | backend/db/crud.py:18-20 | with no date (or an empty string) the row takes the latest date in the table, or today when the table is empty |
| Crud.AddedParsesDate | backend/db/crud.py:21-22 | a date string that parses is stored as the parsed date |
| Crud.AddedDefaults | backend/db/crud.py:31-32 | missing tags and mood are stored as `""`, and given ones as they are |
| Crud.JournalTable.AddEntry | backend/db/crud.py:7-38 | the table gains the row `Added` describes, or is unchanged when it raises |
| Crud.JournalTable.Insert | backend/api/routes.py:130-141 | the table gains exactly the given row under the next id |
| Crud.EntryById | backend/db/crud.py:45-46 | a row is found only if it is in the table with that id, and nothing is found exactly when no row has the id, so a negative id finds nothing |
| Crud.EntryByIdAfterAppend | backend/db/crud.py:45-46 | after an append the new id finds the new row and every other id finds what it found before |
| Crud.SortByDate | backend/db/crud.py:41-42 | the ordered listing is a permutation of the table |
| Crud.SortByDateSorted | backend/db/crud.py:41-42 | the ordered listing is in non-decreasing date order, ties in id order |
| Crud.EntriesByDate | backend/db/crud.py:41-42 | `get_all_entries_grouped_by_date` is a permutation of the table, sorted by date and then id |
| Crud.JournalTable.ResetDatabase | backend/db/crud.py:49-51 | resetting leaves the table empty and the next id 1 |
| Processor.IngestOutcome | backend/upload/processor.py:56-70 | one tag, mood, `add_entry`, embed and point step keeps the table well formed; when it completes, exactly one row and one point that mirrors it are added; when the embedder raises, the committed row stays and no point is added; when it raises earlier, nothing is written |
| Processor.IngestAborts | backend/upload/processor.py:56-61 | the step raises `TaggingFailed` exactly when the tagger fails; `EntryRejected` exactly when the tagger succeeds but the text is blank or the date string does not parse; `EmbeddingFailed` exactly when all of that passes and the embedder raises; nothing else stops it |
| Processor.IngestAdds | backend/upload/processor.py:57-70 | the committed row has the next id, the text, the source type, the tagger's tags, the labeller's mood and the resolved date; when the step completes, the point has the embedding of the embedded text and the given source |
| Processor.IngestStores | backend/upload/processor.py:56-70 | a non-blank text whose tags the model gives is always stored, under the date `add_entry` resolves; it gets a point exactly when the embedder answers, and otherwise the step raises `EmbeddingFailed` |
| Processor.ExtendsTrans | backend/upload/processor.py:46-95 | rows and points written by successive records stay in order and stay paired |
| Processor.WrittenUnembedded | backend/upload/processor.py:59-61 | a row committed before the embedder raised is the one row left without a point |
| Processor.ExtendsThenWritten | backend/upload/processor.py:46-95 | what a record writes after completed records keeps the earlier rows and points, and the pairing, in order |
| Processor.RecordsOf | backend/upload/processor.py:44-46 | iterating the loaded JSON gives a list's items, nothing for an empty object or string, and `TypeError` or `AttributeError` for anything else |
| Processor.RecordDate | backend/upload/processor.py:47-54 | a record's date is none for a falsy value, the parsed date, or today when the string does not parse; a truthy non-string raises `TypeError` |
| Processor.RecordOutcome | backend/upload/processor.py:46-95 | one record writes at most one row and keeps rows and points paired, except a row whose embedding raised; it writes nothing when it raises for any other reason, and raises `AttributeError` when it is not an object |
| Processor.CleanedRecordOutcome | backend/upload/processor.py:72-95 | a record sent for cleaning raises `CleaningFailed` when the model call fails, is skipped on an empty answer, and otherwise writes at most one row |
| Processor.CleanedRecordStored | backend/upload/processor.py:76-92 | a non-empty cleaned answer whose tags the model gives is stored as the text, under today; it gets a point exactly when the embedder answers |
| Processor.RecordsOutcome | backend/upload/processor.py:46-95 | a list of records writes at most one row per record, and keeps rows and points paired except the last row when the embedder raised |
| Processor.RecordsOutcomeAppend | backend/upload/processor.py:46 | no record after the first exception is looked at, and records before it stay written |
| Processor.RecordIngests | backend/upload/processor.py:56-59 | a record with a usable date and a non-blank text string goes straight to the ingest step with its text stripped |
| Processor.WellFormedRecordStored | backend/upload/processor.py:50-70 | a record with a parsable date and a non-blank text, whose tags the model gives, is stored under that date with its text stripped, whatever rows already exist; the unstripped text is embedded, and only the embedder can still stop the import |
| Processor.UnparsableDateIsToday | backend/upload/processor.py:51-54 | a date string that does not parse stores the record under today |
| Processor.UndatedRecordCleaned | backend/upload/processor.py:72-92 | a record without a date is stored as the model's non-empty cleaned text, under today |
| Processor.DatedBlankRecordCleaned | backend/upload/processor.py:56-76 | a record with a usable date but a missing, falsy or blank text is sent for cleaning too, with the record's own date string in the prompt |
| Processor.DatedNonStringTextRaises | backend/upload/processor.py:56 | a dated record whose text is truthy but not a string raises `AttributeError` and writes nothing |
| Processor.RecordNeverRejected | backend/upload/processor.py:56-92 | `add_entry` never refuses a record, so a record only stops the import for other reasons |
| Processor.RawEntryOutcome | backend/upload/processor.py:116-153 | raw text writes at most one row, and keeps rows and points paired except a row whose embedding raised; blank raw text changes nothing |
| Processor.RawEntryStored | backend/upload/processor.py:121-153 | raw text stops the import only when the cleaning, tagging or embedding call fails; a stored raw entry has the cleaned text, today's date read back from its text form, the source as source type and, once embedded, as payload field |
| Processor.RawIngests | backend/upload/processor.py:121-141 | a non-empty cleaned answer goes to the ingest step under today's date written as text |
| Processor.ImportOutcome | backend/upload/processor.py:27-114 | an import does nothing for a missing file, writes at most one row for a file that is not JSON, and keeps rows and points paired except a last row whose embedding raised |
| Processor.ImportDispatch | backend/upload/processor.py:97-114 | an existing file with an audio suffix goes to the transcriber with source `audio`, one with an image suffix to the OCR reader with source `image`, and one with any other suffix but `.json` to a plain read, stripped, with source `text`; a failed read writes nothing |
| Processor.ImportJson | backend/upload/processor.py:41-46 | an existing `.json` file goes to the record loop over its records, in order; a failed load, or a value other than a list, `{}` or `""`, stops the import with nothing written; `{}` and `""` give no records, and a list goes to the record loop, where an item that raises keeps the rows written before it |
| Processor.ImportRawFile | backend/upload/processor.py:97-114 | any other existing file is transcribed, scanned or read according to its suffix and handed to `handle_raw_entry` with the matching source |
| Processor.SuffixListsDisjoint | backend/upload/processor.py:17-18 | no suffix is both an audio and an image type, and neither list holds `.json` |
| Processor.Ingest | backend/upload/processor.py:56-70 | the table and collection end as `IngestOutcome` says, including the row left without a point when the embedder raises |
| Processor.StorePoint | backend/upload/processor.py:61-70 | the abort is `EmbeddingFailed` exactly when the embedder raises, and then the collection is unchanged; otherwise one point, the embedding with the given payload, is appended |
| Processor.ImportRecord | backend/upload/processor.py:46-95 | the table and collection end as `RecordOutcome` says |
| Processor.ImportRecords | backend/upload/processor.py:46-95 | the loop over records ends with the table and collection `RecordsOutcome` says |
| Processor.HandleRawEntry | backend/upload/processor.py:116-155 | the table and collection end as `RawEntryOutcome` says |
| Processor.ImportFile | backend/upload/processor.py:27-114 | the table and collection end as `ImportOutcome` says |
| Routes.Status | backend/api/routes.py:41-66 | an upload error has status 400 exactly when the name is missing or the type unsupported, and 500 otherwise |
| Routes.UploadCheck | backend/api/routes.py:41-50 | an upload is refused exactly when the filename is empty or its lower-cased suffix is not one of the eight supported types |
| Routes.SupportedAccepted | backend/api/routes.py:45-50 | a plain name with a supported extension, in any letter case, is accepted |
| Routes.UploadPath | backend/api/routes.py:46 | the file is saved under `uploads/`, unless its name is an absolute path |
| Routes.Folder.Save | backend/api/routes.py:52-56 | a save that succeeds writes the content at the path; one that fails changes nothing |
| Routes.AfterSave | backend/api/routes.py:53-59 | after the save the import sees the saved file and nothing else changed |
| Routes.UploadJournal | backend/api/routes.py:38-66 | a refused upload or a failed save changes nothing; otherwise the file is saved and the stores end as the import of the saved path says, with `ImportFailed` when it raised |
| Routes.TagSetShape | backend/api/routes.py:87-88 | every kept tag is non-empty, stripped and title-cased |
| Routes.CleanTagList | backend/api/routes.py:85-89 | at most 7 distinct kept tags; all of them when there are at most 7, and exactly 7 otherwise |
| Routes.CleanTags | backend/api/routes.py:85-89 | the joined tag string is empty exactly when no tag is kept, and otherwise begins with the first kept tag; the whole string is stated by `Routes.CleanTagsSplit` |
| Routes.TagCommaFree | backend/api/routes.py:87-88 | a tag made from comma-free matches holds no comma, since stripping and title-casing add none |
| Routes.CleanTagsSplit | backend/api/routes.py:85-89 | with comma-free matches, as the tag pattern guarantees, splitting the string on commas gives back every kept tag in order, each after the first led by the space of `", "`: the string is the kept tags joined with `", "` |
| Routes.CleanTagsEmpty | backend/api/routes.py:85-89 | the cleaned tags are empty exactly when every regex match is blank |
| Routes.RequestTags | backend/api/routes.py:101-112 | non-blank tags in the request are used as given; missing or blank tags give `None` exactly when the model call fails, and otherwise `clean_tags` of the reply |
| Routes.RequestMood | backend/api/routes.py:114 | the request's own mood when it has a non-empty one, otherwise `"reflective"` |
| Routes.RequestSource | backend/api/routes.py:135 | the request's own source type when it has a non-empty one, otherwise `"text"` |
| Routes.FirstDuplicate | backend/api/routes.py:116-120 | the duplicate found is the first row with the same stripped text and date; none is found exactly when no row has both |
| Routes.CreateOutcome | backend/api/routes.py:93-152 | exactly one of four answers: an invalid date exactly when the date does not parse; a failure exactly when it parses and tag generation fails; a duplicate exactly when it parses, tags are at hand and a row with the stripped text and that date exists, and then the id reported is that of the first such row in table order; otherwise `Created`. Only `Created` changes the table, by appending one row under the next id |
| Routes.CreatedRow | backend/api/routes.py:129-149 | a created row holds the parsed date, the stripped text, the source type, and the tags and mood reported back |
| Routes.DuplicateUnchanged | backend/api/routes.py:116-127 | when a row with the same text and date exists, nothing is written and a duplicate no later than that row is reported; when no earlier row matches, that row's own id is reported |
| Routes.RepeatIsDuplicate | backend/api/routes.py:116-127 | sending the same request again reports the row just created as a duplicate and writes nothing |
| Routes.DuplicateAt | backend/api/routes.py:116-120 | a row appended with that text and date is the first duplicate when there was none before |
| Routes.FailsBeforeDuplicateCheck | backend/api/routes.py:101-152 | when tags must be generated and the model call fails, the request fails and nothing is written |
| Routes.CreateEntry | backend/api/routes.py:93-152 | the response and the table are as `CreateOutcome` says, so a request with a valid date, tags at hand and no duplicate is stored, and a duplicate reports the first row with that text and date |
| Routes.ResetAll | backend/api/routes.py:279-301 | the table and the collection end empty |
| TagQueries.CleanPieces | backend/api/routes.py:248 | each tag is its comma piece stripped and lower-cased, one per piece |
| TagQueries.TagListShape | backend/api/routes.py:248 | every listed tag is stripped and lower-case |
| TagQueries.EmptyPieceListed | backend/api/routes.py:248 | empty pieces are kept: `"a,,b"` lists the empty tag |
| TagQueries.AllTagsHas | backend/api/routes.py:238-251 | every tag of every row with tags is listed |
| TagQueries.AllTagsFrom | backend/api/routes.py:238-251 | every listed tag comes from a row with tags |
| TagQueries.InsertSortedSorted | backend/api/routes.py:251 | inserting a new tag keeps the list strictly ascending |
| TagQueries.ListAllTags | backend/api/routes.py:238-251 | the result is strictly ascending and holds exactly the tags of the rows with tags |
| TagQueries.MatchingMembers | backend/api/routes.py:256-273 | a row is returned exactly when it is in the table and has the lower-cased tag |
| TagQueries.MatchingAppend | backend/api/routes.py:262-268 | filtering keeps table order |
| TagQueries.LeadingSpaceMatchesNothing | backend/api/routes.py:266-267 | a query starting with whitespace matches no row |
| TagQueries.FilterEntriesByTag | backend/api/routes.py:256-273 | the matching rows in table order, or status 404 exactly when there are none |
| Counters.Bump | backend/api/routes.py:349-354 | counting a key adds one to its count and leaves every other count alone |
| Counters.BumpKeys | backend/api/routes.py:349-354 | a new key goes to the end and old keys keep their places |
| Counters.UpdateCounts | backend/api/routes.py:349 | after `update` each key's count has grown by its number of occurrences |
| Counters.Update | backend/api/routes.py:349 | `update` keeps the existing keys in their places at the front, and adds no key that is neither old nor counted; the keys after them are exactly the new keys of the list, once each, in the order they first occur |
| Counters.NewKeysAppend | backend/api/routes.py:349 | the keys first met in two lists counted in turn are those first met in their concatenation |
| Counters.UpdateKeysStep | backend/api/routes.py:349 | counting one key and then the rest leaves the same key order as counting the whole list |
| Counters.UpdateProper | backend/api/routes.py:349 | keys stay distinct and counts positive |
| Counters.InsertByCountWithCount | backend/api/routes.py:370 | inserting an item puts it before every item of the same count that was inserted earlier |
| Counters.MostCommon | backend/api/routes.py:370 | `most_common()` is a permutation of the items in non-increasing count order, and the items of each count keep the order in which they were first counted |
| Counters.Top | backend/api/routes.py:377-379 | `most_common(n)` has `min(n, size)` items, all from the counter, in non-increasing order, none below an item left out; of the items that share a count, those kept are the ones first counted |
| Insights.DayCountsTwice | backend/api/routes.py:333-358 | a day is listed exactly when some row falls on it, with twice its number of rows |
| Insights.OneRowCountedTwice | backend/api/routes.py:338-358 | a table of one row reports 2 entries on its day |
| Insights.DailyCountsOnce | backend/api/routes.py:336-338 | the corrected per-day count lists a day exactly when some row falls on it, with its number of rows |
| Insights.WeekCountsBoth | backend/api/routes.py:333-361 | a week key is listed exactly when some row has it, counted once for each of the two week keys of a row that names it |
| Insights.OneRowTwoWeeks | backend/api/routes.py:337-361 | a table of one row reports it under both of its week keys, or twice under one key when the two agree |
| Insights.WeeklyCountsOnce | backend/api/routes.py:359-361 | the corrected per-week count lists an ISO week exactly when some row falls in it, with its number of rows |
| Insights.KeptTags | backend/api/routes.py:347-348 | the counted tags are non-empty, stripped and lower-case |
| Insights.TagCounterCounts | backend/api/routes.py:346-349 | each tag's count is its number of occurrences over all rows; the empty tag is never counted |
| Insights.MoodCounterCounts | backend/api/routes.py:351-354 | each mood's count is the number of rows with that stripped, lower-cased, non-empty mood |
| Insights.TagCounterKeys | backend/api/routes.py:346-349 | the tag counter lists each tag once, in the order it first occurs across the rows, so `most_common` breaks ties by first occurrence |
| Insights.MoodCounterKeys | backend/api/routes.py:351-354 | the mood counter lists each mood once, in the order it first occurs across the rows |
| Insights.MoodColor | backend/api/routes.py:304-316 | a mood is grey exactly when it is not one of the eleven coloured moods |
| Insights.Distribution | backend/api/routes.py:364-371 | one entry per ranked mood with its count, grey exactly for moods outside the colour map |
| Insights.AverageRoundsDown | backend/api/routes.py:363 | the average is the total word count divided by the number of rows, rounded down |
| Insights.TopTagsCounted | backend/api/routes.py:377 | the top tags are distinct and each carries its number of occurrences |
| Insights.TopProper | backend/api/routes.py:377-379 | the top items of a counter have distinct keys and positive counts |
| Insights.DistributionCovers | backend/api/routes.py:364-371 | a mood is in the distribution exactly when some row has it |
| Insights.PrefixStep | backend/api/routes.py:333-361 | one more row updates each running total as the loop body does |
| Insights.GetInsights | backend/api/routes.py:318-380 | the loop's report is `InsightsOf` the table: no report for an empty table, otherwise the totals the lemmas above describe |

## Findings

| source | as written | input that shows it | evidently intended | confidence | as-written member | corrected member |
|---|---|---|---|---|---|---|
| backend/api/routes.py:338-358 | the loop body adds one to the row's day key twice, at lines 338 and 358 | a table with one row reports `entries_per_day` as `{day: 2}` | each row counted once on its day | high, not executed | Insights.OneRowCountedTwice | Insights.DailyCountsOnce |
| backend/api/routes.py:337-361 | the loop body adds one to the row's `%Y-W%U` week key at line 339 and to its ISO week key at line 361 | one row dated 2024-01-02 reports `entries_per_week` as `{"2024-W00": 1, "2024-W01": 1}`; one row dated 2023-01-02 reports `{"2023-W01": 2}` | each row counted once, under one week key (the model takes the ISO key of the later grouping block) | medium, not executed | Insights.OneRowTwoWeeks | Insights.WeeklyCountsOnce |

`Insights.GetInsights` models the route as written and keeps both doubled
counts. `Insights.DailyCounts` and `Insights.WeeklyCounts` are the corrected
counts.

## Left out

- Letter case: `lower` and `title` are modelled for ASCII letters only.
- Regular expressions: `re.findall(r"\b[a-zA-Z][a-zA-Z\s\-]{1,}\b")` in `clean_tags` and the word count `re.findall(r"\w+")` are not modelled. They are given as a list of matches and as a function from text to count.
- Week keys: `strftime("%Y-W%U")` and `isocalendar()` are given as functions of the date.
- Set order: Python's iteration order over the tag set in `clean_tags` is a parameter, any listing of the set.
- The language model: it is a pure function of the prompt, so the same prompt always gets the same answer, and prompt wording is not modelled. The embedder, transcriber, OCR reader, file reads and `json.load` are functions too, and the content they see is not tied to the bytes the upload route saved.
- Files not in the model: `.ocr_reader` and `..utils.embedder` are not part of this model. Only their results are used, as parameters.
- `Paths.Suffix` and `Paths.Name`: no normalisation of `..` or repeated separators beyond what `Path.name` does to a plain string.
- `is_online` is not modelled, because its result is never used. Printing, `async` and thread hand-off are not modelled either.
- Point ids: `uuid4` point ids are not modelled. Every upsert adds a point.
- The `tags` column can hold `None` only through writes the core does not make, so it is a string here.
- `Routes.ResetAll`: the 500 responses when dropping the table or the collection fails are not modelled.
- `Routes.CreateEntry`: the catch-all `except Exception` is modelled only for the model call that generates tags; storage failures are not modelled.
- `reflect_on_entry`, `ask_question` and `get_db`: not modelled, because they only pass text to the model or the vector search. `list_entries` and `get_entry` are the crud queries `Crud.EntriesByDate` and `Crud.EntryById`.
- `batch_add_entries` and `search` of the vector store are not used by the core.
- Storage: SQLite transactions, concurrent writers and store outages are not modelled. Each write succeeds. An embedder that raises is modelled.
- `Dates.ParseIsoDate`: accepts ASCII digits only. In a `str` pattern, `strptime`'s `\d` also matches other Unicode decimal digits (for example Arabic-Indic digits), which the model refuses. So for such a date `create_entry` reports an invalid date where the code stores the entry, and the importer files such a record under today.
- `Crud.SortByDate`: rows of the same date are listed in id order. `ORDER BY date` leaves their order to the database engine, so this order is the model's choice.
- `Insights.GetInsights`: `entries_per_day` and `entries_per_week` are maps, so the key order of the JSON response (first-counted first) is not modelled. The ranked lists keep their order.
