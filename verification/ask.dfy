/**
 * `ask_question` end to end (app/routes/ask_question.py): command
 * sniffing, the chat-driven delete and the debug dump, and the question
 * pipeline from file resolution to the answer and the session memory
 * update. The listing the route consults is a parameter, so that the
 * pipeline can be run over `list_files` as written and over the listing
 * its consumers expect.
 */
module Ask {
  import opened Util
  import opened Metadata
  import opened Corpus
  import opened Memory
  import opened Scope
  import opened Retrieval
  import opened Context
  import opened Tools
  import Patterns

  /** The route always uses the same session (:61). */
  const SessionId := "default"

  /** Produces the listing for the records in the store. */
  type Lister = seq<Meta> -> Listing

  /** The replies of everything outside the application: the file
      classifier, the similarity ranking of the store, the first chat
      completion and its follow-up, the filename similarity search, the
      debug route's dump, and the message of the store's delete when it
      raises. */
  datatype Oracles = Oracles(
    classifier: Option<string>,
    ranking: seq<nat>,
    first: Reply,
    followUp: Option<string>,
    closeMatches: Matcher,
    debugDump: string,
    deleteError: Option<string>)

  ghost predicate ValidOracles(o: Oracles) {
    ValidMatcher(o.closeMatches)
  }

  /** What the route returns: a plain answer, the full answer with its
      context, files and sources, or an uncaught exception (HTTP 500). */
  datatype Response =
    | Message(answer: string)
    | Answered(markdown: string, context: string, system: string,
               usedFiles: seq<(Option<string>, Option<string>)>,
               sources: seq<SourceLink>, pageLists: seq<PageList>)
    | Failure(exception: string)

  /** The response with the memory and the store after the request. */
  datatype Step = Step(response: Response, memory: Memory.Store, store: seq<Chunk>)

  // ---------------------------------------------------------------------
  // The delete command (:78-112)
  // ---------------------------------------------------------------------

  /** The first entry whose lower-cased filename is `m` (the `next(...)`
      generator at :95 tests entries in order). */
  function FirstEntryWithLower(entries: seq<FileEntry>, m: string): (r: Option<FileEntry>)
    ensures r.Some? ==> r.value in entries && Lower(r.value.filename) == m
    ensures FirstAmong(entries, m, r)
    ensures r.None? <==> forall e :: e in entries ==> Lower(e.filename) != m
    decreases |entries|
  {
    if entries == [] then None
    else if Lower(entries[0].filename) == m then Some(entries[0])
    else
      assert forall e :: e in entries <==> e == entries[0] || e in entries[1..];
      var r := FirstEntryWithLower(entries[1..], m);
      FirstNoEarlierShift(entries, m, r);
      r
  }

  /** No entry before `r` folds to `m` (the witness of `FirstEntryWithLower`). */
  predicate FirstAmong(entries: seq<FileEntry>, m: string, r: Option<FileEntry>) {
    r.Some? ==> exists i :: 0 <= i < |entries| && entries[i] == r.value &&
                            forall j :: 0 <= j < i ==> Lower(entries[j].filename) != m
  }

  lemma FirstNoEarlierShift(entries: seq<FileEntry>, m: string, r: Option<FileEntry>)
    requires entries != [] && Lower(entries[0].filename) != m
    requires FirstAmong(entries[1..], m, r)
    ensures FirstAmong(entries, m, r)
  {
    if r.Some? {
      var i :| 0 <= i < |entries[1..]| && entries[1..][i] == r.value &&
               forall j :: 0 <= j < i ==> Lower(entries[1..][j].filename) != m;
      assert entries[i + 1] == r.value;
      forall j | 0 <= j < i + 1
        ensures Lower(entries[j].filename) != m
      {
        if j > 0 { assert entries[j] == entries[1..][j - 1]; }
      }
    }
  }

  /** `delete_file` over the given listing. */
  function DeleteWith(lister: Lister, store: seq<Chunk>, fid: string, deleteError: Option<string>)
    : Outcome<DeleteReply>
  {
    DeleteFileGiven(lister(Metas(store)), store, fid, deleteError)
  }

  // ---------------------------------------------------------------------
  // The internal request `DELETE /delete_file/{id}` (:101-102)
  // ---------------------------------------------------------------------

  /** The characters that end the path of a URL: a query or a fragment
      follows. */
  predicate EndsPath(c: char) { c == '?' || c == '#' }

  /** The characters of an id that do not reach the route as written. */
  predicate UrlSpecial(c: char) { EndsPath(c) || c == '%' || c == '/' }

  /** The URL path: everything before the first '?' or '#'. */
  function PathPart(u: string): (p: string)
    ensures |p| <= |u| && p == u[..|p|]
    ensures forall k :: 0 <= k < |p| ==> !EndsPath(p[k])
    ensures |p| < |u| ==> EndsPath(u[|p|])
    decreases |u|
  {
    if u == [] || EndsPath(u[0]) then [] else [u[0]] + PathPart(u[1..])
  }

  function HexDigit(c: char): (d: Option<nat>)
    ensures d.Some? ==> d.value < 16
  {
    if '0' <= c <= '9' then Some(c as int - '0' as int)
    else if 'a' <= c <= 'f' then Some(c as int - 'a' as int + 10)
    else if 'A' <= c <= 'F' then Some(c as int - 'A' as int + 10)
    else None
  }

  /** The server's percent-decoding of the path, for escapes of ASCII
      characters; a '%' that starts no such escape stays as it is. */
  function Unquote(s: string): (r: string)
    ensures |r| <= |s|
    ensures (forall k :: 0 <= k < |s| ==> s[k] != '%') ==> r == s
    decreases |s|
  {
    if s == [] then []
    else if |s| >= 3 && s[0] == '%' && HexDigit(s[1]).Some? && HexDigit(s[2]).Some? && HexDigit(s[1]).value < 8 then
      [(16 * HexDigit(s[1]).value + HexDigit(s[2]).value) as char] + Unquote(s[3..])
    else [s[0]] + Unquote(s[1..])
  }

  /** The `file_id` the delete route receives for `f"/delete_file/{id}"`:
      the client cuts the URL at '?' or '#', the server decodes escapes, and
      a segment that is empty or holds '/' matches no route (None, answered
      with a 404 "Not Found"). An id free of these characters arrives as it
      is. */
  function RoutedId(id: string): (r: Option<string>)
    ensures (forall k :: 0 <= k < |id| ==> !UrlSpecial(id[k])) && id != "" ==> r == Some(id)
    ensures r.Some? ==> r.value != "" && |r.value| <= |id|
  {
    PathPartPlain(id);
    var seg := Unquote(PathPart(id));
    if seg == [] || '/' in seg then None else Some(seg)
  }

  lemma PathPartPlain(u: string)
    ensures (forall k :: 0 <= k < |u| ==> !UrlSpecial(u[k])) ==> PathPart(u) == u && '/' !in u
  {
    PathPartWhole(u);
  }

  /** A URL without '?' or '#' is all path. */
  lemma PathPartWhole(u: string)
    ensures (forall k :: 0 <= k < |u| ==> !EndsPath(u[k])) ==> PathPart(u) == u
  {
  }

  /** A '#' in an id cuts it: "a#b" reaches the route as "a". */
  lemma RoutedIdCutsFragment()
    ensures RoutedId("a#b") == Some("a")
  {
    var u := "a#b";
    assert u[0] == 'a' && u[1..] == "#b" && "#b"[0] == '#';
    assert PathPart(u) == "a";
    assert Unquote("a") == "a";
  }

  /** An ASCII escape in an id is decoded: "a%41" reaches the route as "aA". */
  lemma RoutedIdDecodesEscape()
    ensures RoutedId("a%41") == Some("aA")
  {
    var u := "a%41";
    PathPartWhole(u);
    assert !EndsPath(u[0]) && !EndsPath(u[1]) && !EndsPath(u[2]) && !EndsPath(u[3]);
    assert u[0] == 'a' && u[1..] == "%41";
    assert Unquote(u) == "a" + Unquote("%41");
    var e := "%41";
    assert e[1] == '4' && e[2] == '1' && e[3..] == [];
    assert HexDigit('4') == Some(4) && HexDigit('1') == Some(1);
    assert Unquote(e) == [65 as char];
    assert Unquote(u) == "aA";
  }

  /** The reply of the route server when no route matches the path. */
  const NotFoundText := "Not Found"

  function DeletedText(name: string, fid: string, remaining: nat): string {
    "<pre>Deleted '" + name + "' (file_id: " + fid + ")\n\nRemaining files: " + IntToString(remaining) + "</pre>"
  }

  /** The chat delete: the target is matched against the listed names in
      lower case, the best match's entry supplies the id, and the delete
      route does the rest. No privilege is checked. */
  function DeletePath(lister: Lister, store: seq<Chunk>, target: string, closeMatches: Matcher,
                      deleteError: Option<string>)
    : (r: (Response, seq<Chunk>))
    requires ValidMatcher(closeMatches)
    ensures r.1 != store ==>
              exists e, seg :: e in Entries(lister(Metas(store))) && Truthy(e.fileId)
                               && RoutedId(e.fileId.value) == Some(seg)
                               && r.1 == DeleteWith(lister, store, seg, deleteError).store
    ensures r.0.Message? || r.0 == Failure("KeyError")
    ensures ListedNames(Entries(lister(Metas(store)))) == [] ==>
              r == (Message("No files in database to delete"), store)
  {
    var entries := Entries(lister(Metas(store)));
    var fns := ListedNames(entries);
    if fns == [] then (Message("No files in database to delete"), store)
    else
      var ms := closeMatches(Lower(target), LowerAll(fns), 1);
      assert ValidMatches(ms, LowerAll(fns), 1);
      if ms == [] then (Message("No close match found for '" + target + "'."), store)
      else
        match FirstEntryWithLower(entries, ms[0])
        case None => (Message("Could not find file_id for '" + ms[0] + "'."), store)
        case Some(e) =>
          if e.fileId.None? then (Failure("KeyError"), store)
          else if e.fileId.value == "" then (Message("Could not find file_id for '" + ms[0] + "'."), store)
          else
            match RoutedId(e.fileId.value)
            case None => (Message("Error deleting '" + ms[0] + "': " + NotFoundText), store)
            case Some(seg) =>
              var o := DeleteWith(lister, store, seg, deleteError);
              if o.reply.Err? then
                (Message("Error deleting '" + ms[0] + "': " + o.reply.error.detail), o.store)
              else
                (Message(DeletedText(ms[0], e.fileId.value, o.reply.value.remaining)), o.store)
  }

  /** Over `list_files` as written the chat delete never removes anything:
      the id lookup fails before the delete route is reached. */
  lemma DeletePathAsWrittenKeepsStore(store: seq<Chunk>, target: string, closeMatches: Matcher,
                                      deleteError: Option<string>)
    requires ValidMatcher(closeMatches)
    ensures DeletePath(ListFiles, store, target, closeMatches, deleteError).1 == store
  {
    var entries := Entries(ListFiles(Metas(store)));
    var fns := ListedNames(entries);
    if fns != [] {
      var ms := closeMatches(Lower(target), LowerAll(fns), 1);
      if ms != [] {
        var r := FirstEntryWithLower(entries, ms[0]);
        if r.Some? {
          assert r.value.fileId.None?;
        }
      }
    }
  }

  // ---------------------------------------------------------------------
  // The question pipeline (:122-555)
  // ---------------------------------------------------------------------

  /** The system message of the first completion (:374-386), reduced to a
      constant: its wording only instructs the external model. */
  const SystemMessage := "You must limit your reasoning to the provided excerpts for the active file."

  /** `zip(retrieved_docs, retrieved_metas)` after the backfill. */
  function Rejoin(cs: seq<Chunk>, metas: seq<Meta>): (r: seq<Chunk>)
    requires |metas| == |cs|
    ensures |r| == |cs|
    ensures forall i :: 0 <= i < |cs| ==> r[i] == Chunk(cs[i].doc, metas[i])
  {
    seq(|cs|, i requires 0 <= i < |cs| => Chunk(cs[i].doc, metas[i]))
  }

  /** `included_files` */
  function UsedFiles(gs: seq<Group>): (r: seq<(Option<string>, Option<string>)>)
    ensures |r| == |gs|
    ensures forall i :: 0 <= i < |gs| ==> r[i] == (gs[i].fileId, gs[i].source)
  {
    seq(|gs|, i requires 0 <= i < |gs| => (gs[i].fileId, gs[i].source))
  }

  /** The groups the context is built from: backfilled, grouped, sorted. */
  function ContextGroups(results: seq<Chunk>, entries: seq<FileEntry>): (gs: seq<Group>)
  {
    var metas := Backfill(Metas(results), FileIndex(entries));
    SortGroups(GroupChunks(Rejoin(results, metas)))
  }

  /** Everything after the store query: the early return on no results,
      the context, the conversation with the model, the page lists and the
      memory update. */
  function Answer(mem: Memory.Store, query: string, entries: seq<FileEntry>, listing: Listing,
                  results: seq<Chunk>, o: Oracles): (r: (Response, Memory.Store))
    requires ValidOracles(o)
    ensures results == [] ==> r == (Message("No relevant documents found."), mem)
    ensures results != [] ==> !r.0.Message?
    ensures r.0.Failure? ==> r.0.exception in {"AttributeError", "ValueError"}
    ensures r.0.Answered? ==>
              && r.1 == UpdateSessionMemory(mem, SessionId, query, r.0.markdown)
              && r.0.sources == SourceLinks(Metas(results))
    ensures r.0.Answered? ==>
              (r.0.context, r.0.system) == Guard(BuildContext(ContextGroups(results, entries)), SystemMessage, query)
    ensures !r.0.Answered? ==> r.1 == mem
  {
    if results == [] then (Message("No relevant documents found."), mem)
    else
      var gs := ContextGroups(results, entries);
      var guarded := Guard(BuildContext(gs), SystemMessage, query);
      Compose(mem, query, listing, gs, SourceLinks(Metas(results)), guarded.0, guarded.1, o)
  }

  /** The tail of the question path once the context is built: the two
      model rounds, then the per-file page lists; either can fail. */
  function Compose(mem: Memory.Store, query: string, listing: Listing, gs: seq<Group>,
                   links: seq<SourceLink>, ctx: string, sys: string, o: Oracles): (r: (Response, Memory.Store))
    requires ValidOracles(o)
    ensures !r.0.Message?
    ensures r.0.Failure? ==> r.0.exception in {"AttributeError", "ValueError"}
    ensures r.0.Answered? ==>
              && r.1 == UpdateSessionMemory(mem, SessionId, query, r.0.markdown)
              && r.0.sources == links && r.0.context == ctx && r.0.system == sys
    ensures !r.0.Answered? ==> r.1 == mem
  {
    match Converse(o.first, o.followUp, listing, o.closeMatches)
    case Err(e) => (Failure(e), mem)
    case Ok(ans) =>
      match PageLists(links)
      case Err(e) => (Failure(e), mem)
      case Ok(pls) =>
        (Answered(ans.markdown, ctx, sys, UsedFiles(gs), links, pls),
         UpdateSessionMemory(mem, SessionId, query, ans.markdown))
  }

  /** `available_files`: the listed filenames. */
  function Filenames(entries: seq<FileEntry>): (fns: seq<string>)
    ensures |fns| == |entries|
    ensures forall i :: 0 <= i < |entries| ==> fns[i] == entries[i].filename
  {
    Map(entries, (e: FileEntry) => e.filename)
  }

  /** The files the question is resolved to (:161-172). */
  function QuestionFiles(entries: seq<FileEntry>, mem: Memory.Store, query: string, o: Oracles): seq<string> {
    ResolveFiles(o.classifier, query, Filenames(entries), GetLastActiveFile(mem, SessionId))
  }

  /** The `where` argument of the store query (:190-235). */
  function QuestionFilter(entries: seq<FileEntry>, mem: Memory.Store, query: string, o: Oracles): Option<Filter> {
    QueryFilter(QuestionFiles(entries, mem, query, o), ExtractPage(query), query)
  }

  /** The question pipeline once every listed entry has an id: the primary
      file is remembered before the store is queried, so it is kept even
      when nothing is found; an answer records the exchange on top of it. */
  function Retrieve(listing: Listing, store: seq<Chunk>, mem: Memory.Store, query: string, o: Oracles)
    : (r: (Response, Memory.Store))
    requires ValidOracles(o)
    ensures var remembered := RememberActive(mem, SessionId, Select(QuestionFiles(Entries(listing), mem, query, o)));
            var results := QueryStore(store, QuestionFilter(Entries(listing), mem, query, o), o.ranking);
            && (results == [] ==> r == (Message("No relevant documents found."), remembered))
            && (results != [] ==> !r.0.Message?)
            && (r.0.Answered? ==> && r.1 == UpdateSessionMemory(remembered, SessionId, query, r.0.markdown)
                                  && r.0.sources == SourceLinks(Metas(results)))
            && (!r.0.Answered? ==> r.1 == remembered)
  {
    var entries := Entries(listing);
    var mem1 := RememberActive(mem, SessionId, Select(QuestionFiles(entries, mem, query, o)));
    var results := QueryStore(store, QuestionFilter(entries, mem, query, o), o.ranking);
    Answer(mem1, query, entries, listing, results, o)
  }

  /** A question. The ids of the listed files are read with `f["file_id"]`
      (:129), which raises when an entry lacks one. */
  function QuestionPath(lister: Lister, store: seq<Chunk>, mem: Memory.Store, query: string, o: Oracles)
    : (r: (Response, Memory.Store))
    requires ValidOracles(o)
    ensures (exists e :: e in Entries(lister(Metas(store))) && e.fileId.None?) ==>
              r == (Failure("KeyError"), mem)
    ensures (forall e :: e in Entries(lister(Metas(store))) ==> e.fileId.Some?) ==>
              r == Retrieve(lister(Metas(store)), store, mem, query, o)
  {
    var listing := lister(Metas(store));
    if exists e :: e in Entries(listing) && e.fileId.None? then (Failure("KeyError"), mem)
    else Retrieve(listing, store, mem, query, o)
  }

  /** The whole route. */
  function AskQuestion(lister: Lister, store: seq<Chunk>, mem: Memory.Store, query: string, o: Oracles)
    : (s: Step)
    requires ValidOracles(o)
    ensures !Sniff(query).DeleteCommand? ==> s.store == store
    ensures Sniff(query).DebugCommand? ==> s == Step(Message("<pre>" + o.debugDump + "</pre>"), mem, store)
    ensures Sniff(query).DeleteCommand? ==> s.memory == mem
  {
    match Sniff(query)
    case DeleteCommand(target) =>
      var (resp, store') := DeletePath(lister, store, target, o.closeMatches, o.deleteError);
      Step(resp, mem, store')
    case DebugCommand => Step(Message("<pre>" + o.debugDump + "</pre>"), mem, store)
    case Question =>
      var (resp, mem') := QuestionPath(lister, store, mem, query, o);
      Step(resp, mem', store)
  }

  // ---------------------------------------------------------------------
  // Properties of the pipeline
  // ---------------------------------------------------------------------

  lemma QueryEmptyStore(where: Option<Filter>, ranking: seq<nat>)
    ensures QueryStore([], where, ranking) == []
  {
    AdmittedEmptyStore(where, ranking);
  }

  lemma {:induction false} AdmittedEmptyStore(where: Option<Filter>, ranking: seq<nat>)
    ensures Admitted([], where, ranking) == []
    decreases |ranking|
  {
    if ranking != [] {
      AdmittedEmptyStore(where, ranking[1..]);
    }
  }

  /** Over `list_files` as written a question never reaches the model: with
      stored files the id lookup at :129 raises, and with none the store
      query finds nothing. */
  lemma QuestionAsWrittenDeadEnd(store: seq<Chunk>, mem: Memory.Store, query: string, o: Oracles)
    requires ValidOracles(o)
    ensures store != [] ==> QuestionPath(ListFiles, store, mem, query, o) == (Failure("KeyError"), mem)
    ensures store == [] ==> QuestionPath(ListFiles, store, mem, query, o).0 == Message("No relevant documents found.")
  {
    var listing := ListFiles(Metas(store));
    if store != [] {
      var e := Entries(listing)[0];
      assert e in Entries(listing);
    } else {
      QueryEmptyStore(QuestionFilter([], mem, query, o), o.ranking);
    }
  }

  lemma IdsListingComplete(store: seq<Chunk>)
    ensures forall e :: e in Entries(ListFilesWithIds(Metas(store))) ==> e.fileId.Some?
  {
    var entries := Entries(ListFilesWithIds(Metas(store)));
    forall e | e in entries ensures e.fileId.Some? {
      var i :| 0 <= i < |entries| && entries[i] == e;
    }
  }

  lemma QuestionWithIdsRetrieves(store: seq<Chunk>, mem: Memory.Store, query: string, o: Oracles)
    requires ValidOracles(o)
    ensures QuestionPath(ListFilesWithIds, store, mem, query, o)
            == Retrieve(ListFilesWithIds(Metas(store)), store, mem, query, o)
  {
    IdsListingComplete(store);
  }

  /** Over the listing that carries ids, no lookup raises, and a question
      whose filter admits some stored record gets past the "no documents"
      return. */
  lemma QuestionWithIdsProceeds(store: seq<Chunk>, mem: Memory.Store, query: string, o: Oracles)
    requires ValidOracles(o)
    requires ValidRanking(o.ranking, |store|)
    ensures QuestionPath(ListFilesWithIds, store, mem, query, o).0 != Failure("KeyError")
    ensures var where := QuestionFilter(Entries(ListFilesWithIds(Metas(store))), mem, query, o);
            (exists c :: c in store && Admits(where, c.meta)) ==>
              QuestionPath(ListFilesWithIds, store, mem, query, o).0 != Message("No relevant documents found.")
  {
    QuestionWithIdsRetrieves(store, mem, query, o);
    RetrieveProceeds(ListFilesWithIds(Metas(store)), store, mem, query, o);
  }

  /** Retrieval raises no lookup error, and answers with the "no documents"
      message only when the filter admits no stored record. */
  lemma RetrieveProceeds(listing: Listing, store: seq<Chunk>, mem: Memory.Store, query: string, o: Oracles)
    requires ValidOracles(o)
    requires ValidRanking(o.ranking, |store|)
    ensures Retrieve(listing, store, mem, query, o).0 != Failure("KeyError")
    ensures (exists c :: c in store && Admits(QuestionFilter(Entries(listing), mem, query, o), c.meta)) ==>
              Retrieve(listing, store, mem, query, o).0 != Message("No relevant documents found.")
  {
    var entries := Entries(listing);
    var where := QuestionFilter(entries, mem, query, o);
    QueryEmptyIff(store, where, o.ranking);
  }

  /** A chunk the store returned reaches the model: its text occurs in the
      context sent with the question, unless the listing guard replaced the
      whole context (an oversized context and a listing question). */
  lemma AnswerContextHasResults(mem: Memory.Store, query: string, entries: seq<FileEntry>, listing: Listing,
                                results: seq<Chunk>, o: Oracles, i: nat)
    requires ValidOracles(o)
    requires i < |results|
    requires Answer(mem, query, entries, listing, results, o).0.Answered?
    ensures var guarded := |BuildContext(ContextGroups(results, entries))| > ContextLimit
                           && Patterns.SearchWords(query, ListingWords);
            var ctx := Answer(mem, query, entries, listing, results, o).0.context;
            && (guarded ==> ctx == SkippedContext)
            && (!guarded ==> IsInfix(results[i].doc, ctx))
  {
    var metas := Backfill(Metas(results), FileIndex(entries));
    var cs := Rejoin(results, metas);
    var gs := SortGroups(GroupChunks(cs));
    ChunkInSomeGroup(cs, i);
    var j, k :| 0 <= j < |gs| && 0 <= k < |gs[j].items| && gs[j].items[k] == ItemOf(cs[i]);
    ContextContainsChunk(gs, j, k);
  }
}
