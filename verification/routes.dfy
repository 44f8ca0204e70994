/**
 * The HTTP routes that change or validate data: `upload_journal`,
 * `clean_tags` with `create_entry`, and `reset_all`. The reading routes
 * `list_all_tags` and `filter_entries_by_tag` are in `TagQueries`, and
 * `get_insights` is in `Insights`.
 */
module Routes {
  import opened Wrappers
  import opened Text
  import opened Dates
  import opened Llm
  import opened Paths
  import Crud
  import opened VectorStore
  import Processor

  // ---------------------------------------------------------------- upload_journal

  /** The extensions the upload route takes, compared after lower-casing. */
  const SupportedExts: seq<string> := [".txt", ".json", ".mp3", ".wav", ".m4a", ".jpg", ".jpeg", ".png"]

  /** Why an upload is refused. */
  datatype UploadError =
    | NoFilename
    | Unsupported(ext: string)
    | SaveFailed
    | ImportFailed(abort: Processor.Abort)

  /** The HTTP status each refusal is reported with. */
  function Status(e: UploadError): (code: nat)
    ensures code == 400 <==> e.NoFilename? || e.Unsupported?
    ensures code == 400 || code == 500
  {
    match e
    case NoFilename => 400
    case Unsupported(_) => 400
    case SaveFailed => 500
    case ImportFailed(_) => 500
  }

  /** The checks made before anything is written: a file name, and a supported extension. */
  function UploadCheck(filename: string): (r: Option<UploadError>)
    ensures r.Some? <==> filename == [] || Extension(filename) !in SupportedExts
    ensures r.Some? && filename != [] ==> r.value == Unsupported(Extension(filename))
    ensures filename == [] ==> r == Some(NoFilename)
  {
    if filename == [] then Some(NoFilename)
    else if Extension(filename) !in SupportedExts then Some(Unsupported(Extension(filename)))
    else None
  }

  /** A name with a supported extension and a non-empty stem is accepted, whatever the case of its extension. */
  lemma SupportedAccepted(stem: string, ext: string)
    requires stem != [] && '/' !in stem && '/' !in ext && stem != "."
    requires |ext| >= 2 && ext[0] == '.' && '.' !in ext[1..]
    requires Lower(ext) in SupportedExts
    ensures UploadCheck(stem + ext) == None
  {
    var name := stem + ext;
    assert '/' !in name by {
      forall k | 0 <= k < |name| ensures name[k] != '/' {
        if k < |stem| { assert name[k] == stem[k]; } else { assert name[k] == ext[k - |stem|]; }
      }
    }
    NameOfPlain(name);
    SuffixOfStemAndExt(stem, ext);
  }

  /** A path with no `/` names itself. */
  lemma NameOfPlain(p: string)
    requires p != [] && p != "." && '/' !in p
    ensures Name(p) == p
  {
    SplitOnNoSep(p, '/');
  }

  /** Splitting on a character that does not occur gives the whole string. */
  lemma {:induction false} SplitOnNoSep(s: string, sep: char)
    requires sep !in s
    ensures SplitOn(s, sep) == [s]
  {
    if s != [] {
      assert sep !in s[1..] by {
        forall k | 0 <= k < |s[1..]| ensures s[1..][k] != sep {
          assert s[1..][k] == s[k + 1];
        }
      }
      SplitOnNoSep(s[1..], sep);
      assert [s[0]] + s[1..] == s;
    }
  }

  /** `UPLOAD_DIR / filename`: a relative name goes under `uploads/`, an absolute one is taken as given. */
  function UploadPath(filename: string): (p: string)
    ensures filename != [] && filename[0] != '/' ==> p == "uploads/" + filename
    ensures filename != [] && filename[0] == '/' ==> p == filename
  {
    if filename != [] && filename[0] == '/' then filename else "uploads/" + filename
  }

  /** The upload directory: saved files by path, and the paths that cannot be opened for writing. */
  class Folder {
    var files: map<string, string>
    const writable: string -> bool

    constructor(writable: string -> bool)
      ensures files == map[] && this.writable == writable
    {
      files := map[];
      this.writable := writable;
    }

    /** `open(path, "wb")` and copy: the file now holds the upload, or the write fails and nothing changes. */
    method Save(path: string, content: string) returns (ok: bool)
      modifies this
      ensures ok == writable(path)
      ensures ok ==> files == old(files)[path := content]
      ensures !ok ==> files == old(files)
    {
      if !writable(path) {
        return false;
      }
      files := files[path := content];
      return true;
    }
  }

  /** The importer's view of the disk once the upload is saved: the file is there. */
  function AfterSave(env: Processor.Env, path: string): (e: Processor.Env)
    ensures e.fileExists(path)
    ensures forall p :: p != path ==> e.fileExists(p) == env.fileExists(p)
    ensures e.today == env.today && e.llm == env.llm
  {
    env.(fileExists := p => p == path || env.fileExists(p))
  }

  /**
   * `upload_journal`: a refused name is answered with 400 before any file is
   * written; a failed write with 500; otherwise the file is imported, and an
   * import that raises is answered with 500, keeping what it stored.
   */
  method UploadJournal(folder: Folder, env: Processor.Env, table: Crud.JournalTable, store: Collection,
                       filename: string, content: string)
    returns (r: Result<(string, string), UploadError>)
    requires table.Valid() && Dates.Valid(env.today)
    modifies folder, table, store
    ensures table.Valid()
    ensures UploadCheck(filename).Some? ==>
      r == Failure(UploadCheck(filename).value) && folder.files == old(folder.files)
      && table.entries == old(table.entries) && store.points == old(store.points)
    ensures UploadCheck(filename).None? && !folder.writable(UploadPath(filename)) ==>
      r == Failure(SaveFailed) && folder.files == old(folder.files)
      && table.entries == old(table.entries) && store.points == old(store.points)
    ensures UploadCheck(filename).None? && folder.writable(UploadPath(filename)) ==>
      var path := UploadPath(filename);
      var o := Processor.ImportOutcome(AfterSave(env, path), Processor.Stores(old(table.entries), old(store.points)), path);
      && folder.files == old(folder.files)[path := content]
      && o.stores == Processor.Stores(table.entries, store.points)
      && (o.abort.None? ==> r == Success((filename, Extension(filename))))
      && (o.abort.Some? ==> r == Failure(ImportFailed(o.abort.value)))
  {
    var check := UploadCheck(filename);
    if check.Some? {
      return Failure(check.value);
    }
    var path := UploadPath(filename);
    var saved := folder.Save(path, content);
    if !saved {
      return Failure(SaveFailed);
    }
    var abort := Processor.ImportFile(AfterSave(env, path), table, store, path);
    if abort.Some? {
      return Failure(ImportFailed(abort.value));
    }
    return Success((filename, Extension(filename)));
  }

  // ---------------------------------------------------------------- clean_tags

  /** `{tag.strip().title() for tag in tags if tag.strip()}`. */
  function TagSet(matches: seq<string>): set<string>
  {
    set m | m in matches && !IsBlank(m) :: Title(Strip(m))
  }

  /** Every tag in the set is non-empty, trimmed and already title-cased. */
  lemma TagSetShape(matches: seq<string>, t: string)
    requires t in TagSet(matches)
    ensures t != [] && Strip(t) == t && Title(t) == t
  {
    var m :| m in matches && !IsBlank(m) && t == Title(Strip(m));
    BlankIffStripEmpty(m);
    StripOfStripped(m);
    TitleKeepsStripped(Strip(m));
    TitleIdempotent(Strip(m));
  }

  predicate Distinct(s: seq<string>)
  {
    forall i, j :: 0 <= i < j < |s| ==> s[i] != s[j]
  }

  /** `list(s)`: every element of the set once, in the order the set iterates. */
  ghost predicate IsListing(order: seq<string>, s: set<string>)
  {
    Distinct(order) && forall x :: x in order <==> x in s
  }

  /** A listing is as long as the set it lists. */
  lemma {:induction false} ListingSize(order: seq<string>, s: set<string>)
    requires IsListing(order, s)
    ensures |order| == |s|
  {
    if order != [] {
      var n := |order| - 1;
      var last := order[n];
      assert IsListing(order[..n], s - {last}) by {
        forall x ensures x in order[..n] <==> x in s - {last} {
          if x in order[..n] {
            var k :| 0 <= k < n && order[..n][k] == x;
            assert order[k] == x;
          }
          if x in s - {last} {
            var k :| 0 <= k < |order| && order[k] == x;
            assert k != n;
            assert order[..n][k] == x;
          }
        }
      }
      ListingSize(order[..n], s - {last});
    }
  }

  /** The tags `clean_tags` keeps: the first seven the set yields. */
  function CleanTagList(matches: seq<string>, order: seq<string>): (ts: seq<string>)
    requires IsListing(order, TagSet(matches))
    ensures |ts| <= 7 && Distinct(ts)
    ensures forall t :: t in ts ==> t in TagSet(matches) && t != [] && Strip(t) == t && Title(t) == t
    ensures |TagSet(matches)| <= 7 ==> forall t :: t in TagSet(matches) ==> t in ts
    ensures |TagSet(matches)| >= 7 ==> |ts| == 7
  {
    ListingSize(order, TagSet(matches));
    var ts := if |order| <= 7 then order else order[..7];
    forall t | t in ts ensures t in TagSet(matches) && t != [] && Strip(t) == t && Title(t) == t {
      TagSetShape(matches, t);
    }
    ts
  }

  /** `clean_tags`: the kept tags joined with `", "`. */
  function CleanTags(matches: seq<string>, order: seq<string>): (r: string)
    requires IsListing(order, TagSet(matches))
    ensures r == [] <==> CleanTagList(matches, order) == []
    ensures var ts := CleanTagList(matches, order);
      ts != [] ==> |ts[0]| <= |r| && r[..|ts[0]|] == ts[0]
  {
    var ts := CleanTagList(matches, order);
    if ts == [] then Join(ts, ", ")
    else
      JoinStartsWithHead(ts, ", ");
      assert ts[0] in ts;
      Join(ts, ", ")
  }

  /** A tag made from comma-free matches holds no comma: stripping and title-casing add none. */
  lemma TagCommaFree(matches: seq<string>, t: string)
    requires t in TagSet(matches)
    requires forall m :: m in matches ==> ',' !in m
    ensures ',' !in t
  {
    var m :| m in matches && !IsBlank(m) && t == Title(Strip(m));
    var u := Strip(m);
    StripIsInfix(m);
    var i :| OccursAt(m, u, i);
    forall j | 0 <= j < |t| ensures t[j] != ',' {
      assert u[j] == m[i + j];
      assert u[j] != ',';
      assert !IsLetter(',');
    }
  }

  /**
   * The tag pattern matches no comma, so splitting the stored tags on commas
   * gives back every kept tag in order, each after the first led by the space
   * of the `", "` separator.
   */
  lemma CleanTagsSplit(matches: seq<string>, order: seq<string>)
    requires IsListing(order, TagSet(matches))
    requires forall m :: m in matches ==> ',' !in m
    ensures var ts := CleanTagList(matches, order);
      var ps := SplitOn(CleanTags(matches, order), ',');
      ts != [] ==> |ps| == |ts| && ps[0] == ts[0] && forall k :: 1 <= k < |ts| ==> ps[k] == " " + ts[k]
  {
    var ts := CleanTagList(matches, order);
    if ts != [] {
      forall k | 0 <= k < |ts| ensures ',' !in ts[k] {
        assert ts[k] in ts;
        TagCommaFree(matches, ts[k]);
      }
      SplitOnJoinSpaced(ts, ',');
      assert CleanTags(matches, order) == Join(ts, [',', ' ']);
    }
  }

  /** Nothing usable in the reply gives an empty tag string; anything usable gives a non-empty one. */
  lemma CleanTagsEmpty(matches: seq<string>, order: seq<string>)
    requires IsListing(order, TagSet(matches))
    ensures CleanTags(matches, order) == [] <==> forall m :: m in matches ==> IsBlank(m)
  {
    var ts := CleanTagList(matches, order);
    ListingSize(order, TagSet(matches));
    if exists m :: m in matches && !IsBlank(m) {
      var m :| m in matches && !IsBlank(m);
      assert Title(Strip(m)) in TagSet(matches);
      assert |ts| > 0;
      assert ts[0] in ts;
      JoinStartsWithHead(ts, ", ");
    } else {
      assert TagSet(matches) == {};
      assert ts == [];
    }
  }

  // ---------------------------------------------------------------- create_entry

  /** The request body; `date` is meant as `YYYY-MM-DD`. */
  datatype CreateRequest = CreateRequest(
    text: string, date: string, tags: Option<string>, mood: Option<string>, sourceType: Option<string>)

  datatype CreateResponse =
    | InvalidDate
    | CreateFailed
    | Duplicate(entryId: nat)
    | Created(entryId: nat, tags: string, mood: string)

  /**
   * The tagging services: the model server, `re.findall` with the tag
   * pattern, and the order in which a set of strings is iterated.
   */
  datatype TagService = TagService(
    llm: Prompt -> Reply,
    findTags: string -> seq<string>,
    listing: set<string> -> seq<string>)

  ghost predicate Lists(svc: TagService)
  {
    forall s :: IsListing(svc.listing(s), s)
  }

  /** `entry.tags`, unless it is missing or blank: then the cleaned model reply, or `None` when the call raises. */
  function RequestTags(req: CreateRequest, svc: TagService): (r: Option<string>)
    requires Lists(svc)
    ensures req.tags.Some? && !IsBlank(req.tags.value) ==> r == req.tags
    ensures req.tags.None? || IsBlank(req.tags.value) ==>
      (r.None? <==> Generate(svc.llm, CreateEntryTagsPrompt(req.text)).Unavailable?)
    ensures var reply := Generate(svc.llm, CreateEntryTagsPrompt(req.text));
      (req.tags.None? || IsBlank(req.tags.value)) && reply.Answer? ==>
        r == Some(CleanTags(svc.findTags(reply.text), svc.listing(TagSet(svc.findTags(reply.text)))))
  {
    if req.tags.None? || IsBlank(req.tags.value) then
      match Generate(svc.llm, CreateEntryTagsPrompt(req.text))
      case Unavailable => None
      case Answer(a) =>
        var matches := svc.findTags(a);
        Some(CleanTags(matches, svc.listing(TagSet(matches))))
    else req.tags
  }

  /** `entry.mood_label or "reflective"`. */
  function RequestMood(req: CreateRequest): (m: string)
    ensures m != []
    ensures req.mood.Some? && req.mood.value != [] ==> m == req.mood.value
    ensures req.mood.None? || req.mood.value == [] ==> m == "reflective"
  {
    if req.mood.None? || req.mood.value == [] then "reflective" else req.mood.value
  }

  /** `entry.source_type or "text"`. */
  function RequestSource(req: CreateRequest): (s: string)
    ensures s != []
    ensures req.sourceType.Some? && req.sourceType.value != [] ==> s == req.sourceType.value
    ensures req.sourceType.None? || req.sourceType.value == [] ==> s == "text"
  {
    if req.sourceType.None? || req.sourceType.value == [] then "text" else req.sourceType.value
  }

  /** The first row in table order with the given text and date. */
  function FirstDuplicate(es: seq<Crud.Entry>, text: string, d: Date): (r: Option<nat>)
    ensures r.Some? ==> r.value < |es| && es[r.value].text == text && es[r.value].date == d
    ensures r.Some? ==> forall k :: 0 <= k < r.value ==> !(es[k].text == text && es[k].date == d)
    ensures r.None? ==> forall k :: 0 <= k < |es| ==> !(es[k].text == text && es[k].date == d)
  {
    if es == [] then None
    else if es[0].text == text && es[0].date == d then Some(0)
    else
      match FirstDuplicate(es[1..], text, d)
      case None => None
      case Some(k) => Some(k + 1)
  }

  datatype CreateResult = CreateResult(response: CreateResponse, entries: seq<Crud.Entry>)

  function CreateOutcome(es: seq<Crud.Entry>, req: CreateRequest, svc: TagService): (o: CreateResult)
    requires Crud.WellFormed(es) && Lists(svc)
    ensures Crud.WellFormed(o.entries)
    ensures o.response.InvalidDate? <==> ParseIsoDate(req.date).None?
    ensures o.response.CreateFailed? <==> ParseIsoDate(req.date).Some? && RequestTags(req, svc).None?
    ensures o.response.Duplicate? <==>
      && ParseIsoDate(req.date).Some? && RequestTags(req, svc).Some?
      && FirstDuplicate(es, Strip(req.text), ParseIsoDate(req.date).value).Some?
    ensures o.response.Created? <==>
      && ParseIsoDate(req.date).Some? && RequestTags(req, svc).Some?
      && FirstDuplicate(es, Strip(req.text), ParseIsoDate(req.date).value).None?
    ensures !o.response.Created? ==> o.entries == es
    ensures o.response.Created? ==>
      |o.entries| == |es| + 1 && o.entries[..|es|] == es
      && o.response.entryId == o.entries[|es|].id == Crud.NextId(es)
    ensures o.response.Duplicate? ==>
      exists k :: 0 <= k < |es| && es[k].id == o.response.entryId
        && es[k].text == Strip(req.text) && es[k].date == ParseIsoDate(req.date).value
    ensures o.response.Duplicate? ==>
      o.response.entryId == es[FirstDuplicate(es, Strip(req.text), ParseIsoDate(req.date).value).value].id
  {
    match ParseIsoDate(req.date)
    case None => CreateResult(InvalidDate, es)
    case Some(d) =>
      match RequestTags(req, svc)
      case None => CreateResult(CreateFailed, es)
      case Some(tags) =>
        var mood := RequestMood(req);
        var text := Strip(req.text);
        match FirstDuplicate(es, text, d)
        case Some(k) => CreateResult(Duplicate(es[k].id), es)
        case None =>
          var e := Crud.Entry(Crud.NextId(es), d, text, RequestSource(req), tags, mood);
          Crud.AppendNext(es, e);
          assert (es + [e])[..|es|] == es;
          CreateResult(Created(e.id, tags, mood), es + [e])
  }

  /** A stored entry holds the stripped text, the parsed date, the tags, the mood and the source type. */
  lemma CreatedRow(es: seq<Crud.Entry>, req: CreateRequest, svc: TagService)
    requires Crud.WellFormed(es) && Lists(svc)
    ensures var o := CreateOutcome(es, req, svc);
      o.response.Created? ==>
        && ParseIsoDate(req.date).Some?
        && RequestTags(req, svc) == Some(o.response.tags)
        && o.entries[|es|] == Crud.Entry(o.response.entryId, ParseIsoDate(req.date).value, Strip(req.text),
                                         RequestSource(req), o.response.tags, o.response.mood)
        && o.response.mood == RequestMood(req)
        && FirstDuplicate(es, Strip(req.text), ParseIsoDate(req.date).value).None?
  {
  }

  /** With a valid date and usable tags, an entry whose stripped text and date are already stored is not added again. */
  lemma DuplicateUnchanged(es: seq<Crud.Entry>, req: CreateRequest, svc: TagService, k: nat)
    requires Crud.WellFormed(es) && Lists(svc)
    requires ParseIsoDate(req.date).Some? && RequestTags(req, svc).Some?
    requires k < |es| && es[k].text == Strip(req.text) && es[k].date == ParseIsoDate(req.date).value
    ensures CreateOutcome(es, req, svc).entries == es
    ensures CreateOutcome(es, req, svc).response.Duplicate?
    ensures CreateOutcome(es, req, svc).response.entryId <= es[k].id
    ensures (forall j :: 0 <= j < k ==> !(es[j].text == Strip(req.text) && es[j].date == ParseIsoDate(req.date).value)) ==>
      CreateOutcome(es, req, svc).response.entryId == es[k].id
  {
    var f := FirstDuplicate(es, Strip(req.text), ParseIsoDate(req.date).value);
    assert f.Some?;
    if f.value < k {
      assert es[f.value].id < es[k].id;
    }
  }

  /** Sending the same request twice stores it once: the second answer names the row the first one added. */
  lemma RepeatIsDuplicate(es: seq<Crud.Entry>, req: CreateRequest, svc: TagService)
    requires Crud.WellFormed(es) && Lists(svc)
    requires CreateOutcome(es, req, svc).response.Created?
    requires RequestTags(req, svc).Some?
    ensures var first := CreateOutcome(es, req, svc);
      CreateOutcome(first.entries, req, svc) == CreateResult(Duplicate(first.response.entryId), first.entries)
  {
    var first := CreateOutcome(es, req, svc);
    var d := ParseIsoDate(req.date).value;
    CreatedRow(es, req, svc);
    var es2 := first.entries;
    assert es2 == es + [es2[|es|]];
    DuplicateAt(es, es2[|es|], Strip(req.text), d);
  }

  /** A row appended after rows that do not match is the first match. */
  lemma {:induction false} DuplicateAt(es: seq<Crud.Entry>, e: Crud.Entry, text: string, d: Date)
    requires FirstDuplicate(es, text, d).None? && e.text == text && e.date == d
    ensures FirstDuplicate(es + [e], text, d) == Some(|es|)
  {
    if es != [] {
      assert (es + [e])[1..] == es[1..] + [e];
      assert FirstDuplicate(es[1..], text, d).None? by {
        forall k | 0 <= k < |es| - 1 ensures !(es[1..][k].text == text && es[1..][k].date == d) {
          assert es[1..][k] == es[k + 1];
        }
      }
      DuplicateAt(es[1..], e, text, d);
    }
  }

  /** The tags are asked for before the duplicate check, so an unreachable model server fails the call even for a duplicate. */
  lemma FailsBeforeDuplicateCheck(es: seq<Crud.Entry>, req: CreateRequest, svc: TagService)
    requires Crud.WellFormed(es) && Lists(svc)
    requires ParseIsoDate(req.date).Some?
    requires req.tags.None? || IsBlank(req.tags.value)
    requires svc.llm(CreateEntryTagsPrompt(req.text)).Unavailable?
    ensures CreateOutcome(es, req, svc) == CreateResult(CreateFailed, es)
  {
  }

  /** `create_entry`. */
  method CreateEntry(table: Crud.JournalTable, req: CreateRequest, svc: TagService) returns (resp: CreateResponse)
    requires table.Valid() && Lists(svc)
    modifies table
    ensures table.Valid()
    ensures CreateResult(resp, table.entries) == CreateOutcome(old(table.entries), req, svc)
  {
    var parsed := ParseIsoDate(req.date);
    if parsed.None? {
      return InvalidDate;
    }
    var tags := RequestTags(req, svc);
    if tags.None? {
      return CreateFailed;
    }
    var mood := RequestMood(req);
    var existing := FirstDuplicate(table.entries, Strip(req.text), parsed.value);
    if existing.Some? {
      return Duplicate(table.entries[existing.value].id);
    }
    var e := table.Insert(parsed.value, Strip(req.text), RequestSource(req), tags.value, mood);
    return Created(e.id, e.tags, e.mood);
  }

  // ---------------------------------------------------------------- reset_all

  /** `reset_all`: both the table and the vector collection end up empty. */
  method ResetAll(table: Crud.JournalTable, store: Collection)
    modifies table, store
    ensures table.Valid() && table.entries == [] && store.points == []
  {
    table.ResetDatabase();
    store.Reset();
  }
}
