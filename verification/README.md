# A verified model of the document question-answering service

The service stores uploaded documents as page chunks in a vector store. It
answers questions about them with a chat model, and it keeps a short
conversation memory per session. This project models its deterministic core
in Dafny and proves properties of that model:

- **The corpus index** (`Corpus`). The store is a sequence of chunks, each a
  document text with a metadata record (`Metadata`). `list_files` groups the
  records by `file_id`. `upload_file` normalises the id, numbers the file's
  place, rejects duplicates and stores one chunk per non-blank page.
  `delete_file` checks the listing and deletes by `file_id`.
- **Session memory** (`Memory`). Each session keeps a FIFO of the last five
  exchanges and a remembered "active file".
- **The question pipeline of `ask_question`**, split into pure stages:
  - `Scope`: command sniffing, the page regex, parsing and validating the
    file classifier's reply, and the keyword fallback. Also the `$or`/`$and`
    filter tree with its evaluation semantics, widening and clearing, and
    the ten-result store query. `Patterns` gives the page and keyword
    regular expressions as leftmost-match searches.
  - `Retrieval`: deduplicated source links, the file index, metadata
    backfill, grouping by file, and the stable chunk sort.
  - `Context`: the context string, the 10,000-character listing guard, and
    the per-file page lists.
  - `Tools`: the fuzzy filename matcher, tool-call dispatch and the
    two-round conversation.
  - `Ask`: the route end to end, including the chat-driven delete.
- **The administrator routes** (`Admin`): database folders (create, list,
  delete), the user table (create, delete, promote) and `reset_chroma`.
  The application opens two Chroma collections: the documents collection
  of app/config.py, which every other modelled route uses and which is "the
  store" elsewhere in this model, and the active database's collection of
  app/core/db.py, which `reset_chroma` deletes from.
- **The JSON user registry** (`Auth`): registration, the 72-character
  password cut, `authenticate_user`, the token route and
  `get_current_user`.

Everything outside the application becomes a parameter. This covers:

- the classifier and chat replies, and the similarity ranking of the store;
- difflib's `get_close_matches`, given as a matcher that returns at most `n`
  distinct candidates;
- the decoded JSON tool arguments and the debug dump;
- the password hasher and verifier, and the decoded JWT;
- the directory enumeration order, the ids whose store delete raises in
  `reset_chroma`, and the message of a raising delete in `delete_file`.

Each route is a pure function. It returns its reply together with the new
state: the store, the memory, the database root or the user table.

`list_files` emits entries without a `file_id` key, yet three routes look
the id up in those entries. The model therefore takes the listing as a
parameter wherever a route consults it. It proves the consequences for
`list_files` as written, and proves the intended behaviour for a listing
that carries the ids (`Corpus.ListFilesWithIds`). See "## Findings".

## Model

| member | source | states |
|---|---|---|
| Memory.Push | app/memory.py:16-20 | appending to a full five-slot deque drops the oldest exchange; the new exchange is always last and the bound is kept |
| Memory.GetSessionContext | app/memory.py:8-11 | a session that was never updated renders as the empty string; a one-exchange session renders as "User: u\nAssistant: a" |
| Memory.UpdateSessionMemory | app/memory.py:13-20 | the session gets the exchange as its newest turn and is created on first use; other sessions and all active-file entries are unchanged; the five-turn bound is preserved |
| Memory.UpdateAllKeepsWindow | app/memory.py:6-20 | after k updates of a fresh session it holds exactly the last min(k, 5) exchanges, oldest first |
| Memory.UpdateAllBounded | app/memory.py:6-20 | no sequence of updates makes any session hold more than five exchanges |
| Memory.ContextEndsWithNewest | app/memory.py:8-20 | after an update the rendered context ends with the newest exchange |
| Memory.FirstUpdateStartsFresh | app/memory.py:8-20 | reading an unknown session yields "" and does not create it; its first update holds exactly one exchange |
| Memory.SetLastActiveFile | app/memory.py:25-31 | `get_last_active_file` after the set returns the given name; every other session's active file and all turns are unchanged |
| Corpus.ListFiles | app/routes/list_files.py:13-31 | no records gives the "no files" reply with count 0 and no files list; otherwise one entry per distinct `file_id` (missing ids pooled as "unknown"), in first-appearance order, each built from the first record with that key; count equals the number of entries; entries carry no `file_id` |
| Corpus.UniqueFilesSpec | app/routes/list_files.py:17-25 | the loop's dictionary holds one pair per distinct key, in first-appearance order, with the entry of the first record for that key |
| Corpus.ListFilesWithIds | app/routes/list_files.py:17-31 | the corrected listing has the same count and entries as `list_files`, each extended with its key as `file_id` and its page count as `total_pages` |
| Corpus.ListFilesWithIdsKeys | app/routes/list_files.py:18-20 | an id is listed if and only if some stored record has that key |
| Corpus.UploadFileId | app/routes/upload.py:75 | the stored id is as long as the filename's stem, and each of its characters is that stem character lower-cased, with a space replaced by '-' |
| Corpus.UploadFileIdLower | app/routes/upload.py:75 | the stored id is already lower case, so lower-casing it again in the delete route changes nothing |
| Corpus.StemDropsExtension | app/routes/upload.py:75 | the stem of "base.ext" is "base" |
| Corpus.ExtractText | app/routes/upload.py:24-53 | a PDF yields its pages numbered from 1; any other file yields exactly one page numbered 1; extraction fails exactly when the PDF reader raises on a `.pdf` file, or when the converter is missing for an `.rtf` file |
| Corpus.NonBlankMembers | app/routes/upload.py:89-92 | a page is kept if and only if it is one of the extracted pages and its stripped text is non-empty |
| Corpus.PageRecords | app/routes/upload.py:89-115 | one record per kept page, in page order, all sharing the file's id |
| Corpus.PageRecordsContent | app/routes/upload.py:89-103 | each record holds the stripped page text (never empty), its page number and character count, and the file-wide source, place, total page count (skipped pages included), model name and upload time; no `chunk_index` |
| Corpus.UploadFile | app/routes/upload.py:63-124 | an extraction error is a bare 500 "Internal Server Error" with the store unchanged; an id already stored gives the duplicate reply with the store unchanged; a file with no non-blank page reaches `collection.add` with empty lists, which the store rejects, so the route answers 500 with the store unchanged; otherwise exactly the page records are appended after the old store, and the reported count equals the number appended |
| Corpus.PlaceIsNextListingPosition | app/routes/upload.py:65-69 | a new upload's place is one more than the number of files `list_files` reports |
| Corpus.DeleteWhereMembers | app/routes/delete_file.py:29 | a chunk survives `collection.delete(where=...)` if and only if it was stored and does not satisfy the filter |
| Corpus.DeleteFileGiven | app/routes/delete_file.py:16-51 | the target is the lower-cased, stripped id; the route answers 404 if and only if no listed entry carries that id; when `collection.delete` raises it answers 500 "Error deleting from Chroma: " and the message; every failure leaves the store unchanged; it succeeds if and only if the id is listed and the delete does not raise, and then exactly the chunks with that id are removed and `remaining_files` is the new `list_files` count |
| Corpus.DeleteFile | app/routes/delete_file.py:20-25 | a failed delete leaves the store unchanged |
| Corpus.DeleteFileNeverFinds | app/routes/delete_file.py:20-25 | over `list_files` as written every delete is a 404 and the store is unchanged |
| Corpus.UploadThenDeleteRestores | app/routes/delete_file.py:29 | deleting by a fresh upload's id removes exactly what the upload added |
| Corpus.DeleteFileWithIds | app/routes/delete_file.py:16-31 | over the listing with ids, the delete fails if and only if no stored record has the normalised id or the store's delete raises; otherwise the store is the filtered store |
| Corpus.UploadThenDeleteWithIds | app/routes/delete_file.py:16-31 | over the listing with ids, uploading a new file with a non-blank page and then deleting it by its id both succeed and restore the store exactly, whenever stripping the id leaves it unchanged |
| Corpus.StrippedIdMissesUpload | app/routes/delete_file.py:16 | an upload of "\tx.pdf" is stored under "\tx", but the delete route strips its target to "x", so that file cannot be deleted by its id |
| Scope.ToFileId | app/routes/ask_question.py:18-19 | "" maps to ""; otherwise each character of the id is the stem's character lower-cased, with spaces kept; replacing spaces gives the upload id, and the two coincide exactly when the stem has no space |
| Scope.Sniff | app/routes/ask_question.py:78-115 | a query is a delete command if and only if its stripped lower-cased form starts with "delete "; a debug command if and only if it starts with "debug"; the delete target is the raw text after the first space, stripped and lower-cased |
| Scope.CommandsExclusive | app/routes/ask_question.py:78-115 | no query is both a delete and a debug command, so checking delete first hides nothing |
| Scope.DeleteCommandTarget | app/routes/ask_question.py:78-79 | "delete name" targets the stripped, lower-cased name |
| Scope.DeleteTargetWithLeadingSpace | app/routes/ask_question.py:78-79 | with a leading space the split happens before the command word, so the word becomes part of the target |
| Scope.ExtractPage | app/routes/ask_question.py:123-124 | no page if and only if no position matches "page", whitespace, digits (case-insensitively); otherwise the number of the leftmost match, so at most one page is extracted |
| Patterns.SearchWords | app/routes/ask_question.py:168 | the keyword search succeeds if and only if some alternative matches case-insensitively between word boundaries at some position |
| Scope.Tokens | app/routes/ask_question.py:157-161 | every token of the classifier reply is non-empty, comma-free and stripped |
| Scope.TokensOfJoin | app/routes/ask_question.py:157-161 | a reply that lists clean names separated by commas parses back to exactly those names, in order |
| Scope.Validate | app/routes/ask_question.py:163 | a token is kept if and only if it is a token and an available filename |
| Scope.ValidateAppend | app/routes/ask_question.py:163 | validation distributes over concatenation, so token order is kept |
| Scope.Fallback | app/routes/ask_question.py:165-172 | validated tokens win; otherwise a word-bounded compare/vs/versus/both/all files/all documents selects every available file; otherwise the active file when set; otherwise nothing |
| Scope.ResolveFiles | app/routes/ask_question.py:161-172 | every resolved file is available or is the active file; when some token names an available file, the result is exactly the validated tokens |
| Scope.ResolveNamedFiles | app/routes/ask_question.py:157-172 | a reply naming available files, comma-separated, selects exactly those files in the order given |
| Scope.RememberActive | app/routes/ask_question.py:179-180 | a truthy primary file becomes the session's active file; otherwise memory is unchanged; turns and other sessions are never touched |
| Scope.FileFilterSemantics | app/routes/ask_question.py:190-204 | the file filter is empty if and only if no file is scoped; otherwise a record satisfies it if and only if its `file_id` is `to_file_id(f)` or its source is `f` for some resolved `f` |
| Scope.FilterSemantics | app/routes/ask_question.py:190-209 | before widening, a record is admitted if and only if it matches a resolved file (when files are scoped) and lies on the extracted page as an integer or its text (when a page was extracted); with neither the query is unfiltered |
| Scope.WidenSubsumed | app/routes/ask_question.py:212-230 | the widening at :212-215 changes nothing once the clearing at :229-230 has run |
| Scope.CrossFileUnfiltered | app/routes/ask_question.py:229-235 | a query with "compare", "both" or "all files" as words reaches the store with no filter, dropping file and page constraints |
| Scope.OtherQueriesKeepFilter | app/routes/ask_question.py:212-235 | without those words the file and page filter reaches the store unchanged; "vs" and "versus" do not clear it |
| Scope.EmbeddingInput | app/routes/ask_question.py:224-227 | with no page the query itself is embedded; a nonzero page embeds the literal "page lookup"; page 0 embeds the query (truthiness) |
| Scope.PageZeroInconsistent | app/routes/ask_question.py:206-227 | page 0 constrains the filter but leaves the embedding input unchanged |
| Scope.QueryStore | app/routes/ask_question.py:233-238 | at most ten records, all stored and admitted by the filter, forming a prefix of the admitted records in ranking order |
| Scope.QueryEmptyIff | app/routes/ask_question.py:233-238 | given a ranking of the whole store, the query comes back empty if and only if no stored record satisfies the filter |
| Retrieval.SourceLinks | app/routes/ask_question.py:253-275 | no two links share a (filename, page) key; each link's URL is "/uploads/<file>#page=<page>" |
| Retrieval.SourceLinksComplete | app/routes/ask_question.py:253-275 | the links' keys are exactly the keys of the non-empty records whose source and page are known |
| Retrieval.FileIndex | app/routes/ask_question.py:283-291 | the index has one slot per distinct entry key (`file_id`, default "unknown") |
| Retrieval.FileIndexLastWins | app/routes/ask_question.py:283-291 | the index keeps the last entry with a key |
| Retrieval.BackfillOne | app/routes/ask_question.py:297-303 | only `pages`, `place` and `source` may change, only where missing or "unknown", and only for a record whose `file_id` is indexed; the filled values come from the index |
| Retrieval.BackfillIdempotent | app/routes/ask_question.py:297-303 | backfilling twice gives the same records as backfilling once |
| Retrieval.GroupChunksSpec | app/routes/ask_question.py:311-330 | group keys (`file_id`, else source, else "unknown-file") are distinct, in first-appearance order, and cover every chunk; each group holds exactly its key's chunks in retrieval order, under the header of the first one |
| Retrieval.GroupChunksLossless | app/routes/ask_question.py:311-330 | there are as many grouped items as retrieved chunks |
| Retrieval.SortItemsSpec | app/routes/ask_question.py:332-334 | the sorted chunks are ordered by `chunk_index`, and chunks sharing an index keep their original order (stability) |
| Retrieval.SortSortedIdentity | app/routes/ask_question.py:332-334 | chunks already in index order, such as uploads where every index defaults to 0, are left exactly as they are |
| Retrieval.ChunkInSomeGroup | app/routes/ask_question.py:311-334 | every retrieved chunk is an item of some sorted group |
| Context.ContextContainsChunk | app/routes/ask_question.py:337-371 | every grouped chunk's text occurs in the context string |
| Context.ContextContainsHeader | app/routes/ask_question.py:337-371 | every group's header and its "=== key ===" banner occur in the context string |
| Context.Guard | app/routes/ask_question.py:413-416 | a context within 10,000 characters passes unchanged; a longer one is replaced, along with the system message, if and only if the query has list/show/man/many as a word |
| Util.ParseIntToString | app/routes/ask_question.py:526 | `int(str(i)) == i`: a page stored as its decimal text parses back to the number |
| Context.SortedSet | app/routes/ask_question.py:529-530 | the result is strictly increasing and has exactly the input's elements |
| Context.IncreasingUnique | app/routes/ask_question.py:529-530 | two strictly increasing lists with the same elements are equal, so `sorted(set(xs))` is determined |
| Context.PageLists | app/routes/ask_question.py:524-530 | fails if and only if some page is not a number; otherwise one list per file in first-appearance order, strictly increasing and holding exactly that file's pages |
| Tools.FindBestFileMatch | app/routes/ask_question.py:37-51 | no listed names gives []; at most three results, each a listed filename, matching the lower-case matches one for one; when several listed names fold to the same lower-case key, the result is the last of them (the `lc_map` comprehension keeps the last) |
| Tools.LastWithLowerTie | app/routes/ask_question.py:48-50 | with "A.pdf" and "a.pdf" listed, the key "a.pdf" maps back to "a.pdf" |
| Tools.LastWithLowerUnique | app/routes/ask_question.py:48-50 | a match whose lower-case form no other listed name shares comes back exactly as listed |
| Tools.ListingTextMentions | app/routes/ask_question.py:457-469 | every listed file's line occurs in the `list_files` tool reply |
| Tools.Respond | app/routes/ask_question.py:454-498 | every reply echoes its call's id; `list_files` gets the listing text; unknown names get "No handler implemented for tool '<name>'."; a reply is missing if and only if `find_best_file_match` receives non-object JSON |
| Tools.Dispatch | app/routes/ask_question.py:450-498 | one tool message per call, in call order, each the call's reply; dispatch aborts if and only if some call cannot be answered |
| Tools.Converse | app/routes/ask_question.py:447-513 | without tool calls the first reply's text (or "") is the answer after one completion; with tool calls exactly one follow-up is requested, fed the dispatched messages, and its text is the answer; the request fails if and only if the follow-up has no text (an `AttributeError` on the absent content) or dispatch aborts |
| Ask.FirstEntryWithLower | app/routes/ask_question.py:95 | the entry found has the matched lower-cased filename and no earlier entry has it; none is found if and only if no entry has it |
| Ask.RoutedId | app/routes/ask_question.py:101-102 | the id put into `/delete_file/{id}` reaches the route unchanged when it is non-empty and holds no '?', '#', '%' or '/'; any segment that does reach it is non-empty and no longer than the id |
| Ask.RoutedIdCutsFragment | app/routes/ask_question.py:102 | the id "a#b" reaches the delete route as "a" |
| Ask.RoutedIdDecodesEscape | app/routes/ask_question.py:102 | the id "a%41" reaches the delete route as "aA" |
| Ask.DeletePath | app/routes/ask_question.py:78-112 | no privilege check; an empty listing gives "No files in database to delete" with no change; the store changes only by the delete route run on the routed form of a listed entry's truthy id; the only exception is the `KeyError` of an entry without `file_id` |
| Ask.DeletePathAsWrittenKeepsStore | app/routes/ask_question.py:94-98 | over `list_files` as written the chat delete never changes the store |
| Ask.Compose | app/routes/ask_question.py:447-549 | the tail of the route never returns a plain message; it fails only with a conversation or page-parse error; an answer updates the session memory with the query and the answer and carries the given sources and context; otherwise memory is unchanged |
| Ask.Answer | app/routes/ask_question.py:278-555 | no results gives "No relevant documents found." with memory unchanged; otherwise an answer carries the guarded context of the backfilled, grouped, sorted results, their source links, and the memory update |
| Ask.Retrieve | app/routes/ask_question.py:174-280 | the primary file is remembered before the store is queried, so it is kept even when no chunk matches (the "No relevant documents found." reply); an answer records the exchange on top of it and carries the results' source links; any other outcome leaves memory at the remembered file |
| Ask.QuestionPath | app/routes/ask_question.py:127-129 | a listing entry without `file_id` raises `KeyError` before anything else; otherwise the question is retrieved and answered |
| Ask.AskQuestion | app/routes/ask_question.py:77-120 | only a delete command can change the store; a debug command returns the dump with nothing changed; a delete command leaves memory unchanged |
| Ask.QuestionAsWrittenDeadEnd | app/routes/ask_question.py:127-129 | over `list_files` as written a non-empty store makes every question fail with `KeyError`, and an empty store gives "No relevant documents found." |
| Ask.QuestionWithIdsProceeds | app/routes/ask_question.py:127-280 | over the listing with ids no question raises `KeyError`, and one whose filter admits some stored record gets past the "no documents" return |
| Ask.RetrieveProceeds | app/routes/ask_question.py:233-280 | retrieval raises no `KeyError`, and answers "No relevant documents found." only when the filter admits no stored record |
| Ask.AnswerContextHasResults | app/routes/ask_question.py:311-414 | when the context is over 10,000 characters and the question asks for a listing, the context sent is the skip notice; otherwise every retrieved chunk's text reaches the model |
| Admin.CreateDatabase | app/routes/admin.py:91-104 | succeeds if and only if the stripped name matches `^[a-zA-Z0-9_]{3,20}$` and names no existing entry; success adds exactly that folder; failure is a 400 with no change |
| Admin.CreateDatabaseTwiceFails | app/routes/admin.py:97-100 | creating the same name again fails with "Database already exists." and no change |
| Admin.DeleteDatabase | app/routes/admin.py:123-136 | the active name is a 400 and a missing one a 404, both with no change; deletion succeeds if and only if the name is not active and is a folder, and then removes exactly that entry |
| Admin.ActiveDatabaseSurvives | app/routes/admin.py:123-124 | the active database is present after any delete request |
| Admin.CreateThenDeleteRestores | app/routes/admin.py:91-136 | deleting a just-created, non-active database succeeds and restores the root |
| Admin.ListDatabases | app/routes/admin.py:111-116 | no root gives []; otherwise the result holds the folder names with multiplicity and is sorted |
| Admin.ListDatabasesOrderFree | app/routes/admin.py:115-116 | the listing does not depend on the order in which the directory is enumerated |
| Admin.SortedNamesUnique | app/routes/admin.py:116 | two sorted lists with the same names are equal |
| Admin.CreatedIsListed | app/routes/admin.py:103-116 | a freshly created database appears in the listing |
| Admin.CreateUser | app/routes/admin.py:40-62 | succeeds if and only if the stripped name is non-empty and untaken and the stripped password has at least 4 characters; failure is a 400 with no change; success adds exactly one row with the hashed password and the role, "user" by default |
| Admin.CreateUserKeepsValid | app/routes/admin.py:50-60 | ids and user names stay unique, and the new user is found under the stripped name |
| Admin.DeleteUser | app/routes/admin.py:66-74 | an unknown id is a 404 and the user named "admin" a 400, both with no change; otherwise exactly that row is removed |
| Admin.RootAdminSurvives | app/routes/admin.py:69-70 | the "admin" row is present and unchanged after any delete |
| Admin.DeleteUserKeepsValid | app/routes/admin.py:72-73 | deletion keeps ids and user names unique |
| Admin.PromoteUser | app/routes/admin.py:79-85 | an unknown id is a 404 with no change; otherwise only the target's role changes, to "admin" |
| Admin.PromoteIdempotent | app/routes/admin.py:83 | promoting twice equals promoting once, and promotion keeps ids and names unique |
| Admin.Wiped | app/routes/admin.py:170-175 | an id is wiped if and only if some listed entry carries it, it is non-empty, and its delete does not raise |
| Admin.WipeListed | app/routes/admin.py:167-178 | the count is the number of successful deletes, at most the number of listed files; a chunk of the collection deleted from remains if and only if its `file_id` was not wiped |
| Admin.ResetChroma | app/routes/admin.py:164-178 | the listing is taken from the documents collection, which is never written; the count and the deletes follow `list_files` of that collection, and the deletes apply to the active database's collection (app/services/chroma_service.py:22-24, app/core/db.py:48-60) |
| Admin.ResetIntended | app/routes/admin.py:164-178 | the reset that lists and deletes from one collection keeps only chunks that were already there |
| Admin.ResetAsWrittenWipesNothing | app/routes/admin.py:167-175 | as written the count is 0 and neither collection changes |
| Admin.ListingFixAloneDeletesElsewhere | app/routes/admin.py:170-175 | with the listing given its ids but the deletes still going to the active database's collection, a documents collection holding an identified file reports a file wiped while an active collection sharing none of its ids is left unchanged |
| Admin.ResetWithIdsWipesIdentified | app/routes/admin.py:170-175 | the intended reset (the listing with ids, deleting from the listed collection) with no failing delete leaves only chunks without a non-empty `file_id` |
| Auth.PasswordHash | app/routes/auth.py:47-52 | a password of at most 72 characters is hashed as it is |
| Auth.PasswordHashIgnoresTail | app/routes/auth.py:51 | passwords that agree on their first 72 characters hash alike |
| Auth.Register | app/routes/auth.py:76-95 | succeeds if and only if the stripped name and password are non-empty, the password has at most 72 characters, and the name is not registered; failure is a 400 with no change; success adds exactly one record under the stripped name, holding that name, the hash of the stripped password and the time, with other records unchanged |
| Auth.RegisterKeepsKeyedByName | app/routes/auth.py:88-92 | every record stays stored under its own user name |
| Auth.RegisterTwiceFails | app/routes/auth.py:85-86 | registering the same name again fails with a 400 and leaves the registry unchanged |
| Auth.Authenticate | app/routes/auth.py:63-67 | None if and only if the user is unknown or the password does not verify; otherwise the stored record |
| Auth.Login | app/routes/auth.py:99-109 | a 401 "Invalid username or password." if and only if authentication fails; otherwise the token subject is the record's user name |
| Auth.CurrentUser | app/routes/auth.py:112-121 | succeeds if and only if the token decodes and its subject is present and registered, returning that record; otherwise a 401 "Invalid credentials." |
| Auth.CurrentUserIsRegistered | app/routes/auth.py:116-119 | the user returned is registered under the token's subject |
| Auth.RegisterLoginRoundTrip | app/routes/auth.py:76-119 | after registration, logging in with the stripped name and password issues a token for that name, and the token leads back to the new record |
| Auth.LoginWithUnstrippedPasswordFails | app/routes/auth.py:78-102 | a password registered with surrounding white space is refused at login when typed exactly as at registration |

## Left out

- The chat and embedding calls, the vector similarity search and difflib's matching are not modelled. Their results are parameters: the classifier reply, the ranking, the chat replies and the matcher.
- The prior-context line filter (app/routes/ask_question.py:68-75) and the prompt texts (:132-151, :374-386, :419-428) only shape text for the external model. The system message is a constant.
- The markdown-to-HTML conversion and the HTML source block (app/routes/ask_question.py:516-546) are presentation. The sorted, deduplicated page lists are modelled; the HTML around them is not.
- The debug route (app/routes/debug_metadata.py) is not part of this model. Its output is an opaque string parameter.
- Lower-casing and `\w`, `\d` cover ASCII only. Python's Unicode case mapping and character classes are not modelled.
- `repr` of the tool's match list does not escape quotes.
- Metadata values are integers and strings. Floats, booleans and non-string `file_id`/`source` values are not modelled.
- `int()` accepts underscores and Unicode digits; `Context.PageNumber` parses ASCII decimal text with an optional sign and surrounding white space only.
- Non-string JSON fields (a numeric `username`, a `null` role in `create_user_admin`) are not modelled.
- `get_password_hash` raises `ValueError` for a non-string password. Callers always pass strings, so this is not modelled.
- The filesystem is a flat map from name to kind. `mkdir` and `rmtree` failures other than "not a directory", the exact OS error text, and path traversal through `..` in a database name are not modelled.
- `require_admin`, `list_users`, the chat-log routes and the admin page (app/routes/admin.py:26-35, :139-161) are HTTP plumbing or SQL reads with no logic to model.
- app/core/security.py is not part of this model. The password hash of the user table is a function parameter, as is the hasher and verifier of app/routes/auth.py.
- JWT encoding, expiry and signature checking are not modelled. A token is a decode failure or a payload with an optional subject.
- Reading and writing users.json, and the ids, random salts and `os.urandom` suffixes, are not modelled.
- PDF parsing and the RTF-to-text conversion are not modelled. `Corpus.ExtractText` takes the reader's page texts, or the reader's error, and the decoded text as parameters.
- The `db_place = 0` branch of `upload_file` (no collection configured) is not modelled; a collection always exists.
- The removal of uploaded files in `delete_file` (app/routes/delete_file.py:33-43) iterates over an entry's `sources` key, which `list_files` never sets. It is not modelled.
- Concurrent requests on the process-wide memory dictionaries are modelled sequentially.
- Ask.RoutedId: percent escapes of bytes above 0x7F (decoded as UTF-8 by the server) and the '.' and '..' segments the HTTP client may normalise away are passed as written; only the '?'/'#' cut, ASCII escapes and segments that match no route are modelled.
- Memory.GetSessionContext: its own contract fixes the rendering only for empty and one-exchange sessions. Longer sessions are covered by `Memory.ContextEndsWithNewest` and `Memory.UpdateAllKeepsWindow` rather than a full rendering equation.

## Findings

`list_files` builds entries with only `filename`, `pages` and `place`. Three
consumers read a `file_id` key from those entries. Each row below models the
consumer over `list_files` as written. It also proves the intended behaviour
over `Corpus.ListFilesWithIds`, the same listing with the id (and
`total_pages`) added.

| source | as written | input that shows it | evidently intended | confidence | as-written member | corrected member |
|---|---|---|---|---|---|---|
| app/routes/delete_file.py:20-25 | the existence check compares `f.get("file_id")` of each listed entry with the target, but entries have no `file_id` | any store holding an upload "report.pdf" and a delete of "report": the route answers 404 | a stored file is found and its chunks deleted | not executed | Corpus.DeleteFileNeverFinds | Corpus.UploadThenDeleteWithIds |
| app/routes/ask_question.py:127-129 | `f["file_id"]` is read for every listed entry | any non-empty store: every question raises `KeyError` (HTTP 500) before the classifier is asked | the question proceeds to retrieval | not executed | Ask.QuestionAsWrittenDeadEnd | Ask.QuestionWithIdsProceeds |
| app/routes/admin.py:170-175 | `f.get("file_id")` is falsy for every listed entry; in addition the deletes go to the active database's collection, not the documents collection that was listed | any non-empty documents collection: "Wiped 0 files" and nothing deleted; with ids in the listing alone, files are counted as wiped while the documents collection keeps them (Admin.ListingFixAloneDeletesElsewhere) | every listed file is deleted from the listed collection and counted | not executed | Admin.ResetAsWrittenWipesNothing | Admin.ResetWithIdsWipesIdentified |
