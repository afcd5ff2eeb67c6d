/**
 * The corpus index over chunk metadata: `list_files` (app/routes/list_files.py),
 * `upload_file` and `extract_text` (app/routes/upload.py), and `delete_file`
 * (app/routes/delete_file.py). The vector store is the sequence of its
 * chunks; `collection.add` appends and `collection.delete(where=...)` removes
 * the chunks satisfying a filter.
 */
module Corpus {
  import opened Util
  import opened Metadata

  /** A route's reply together with the store it leaves behind. */
  datatype Outcome<+T> = Outcome(reply: Result<T, HttpError>, store: seq<Chunk>)

  // ---------------------------------------------------------------------
  // list_files
  // ---------------------------------------------------------------------

  /** The grouping key of each record: `meta.get("file_id", "unknown")`. */
  function Keys(metas: seq<Meta>): (ks: seq<string>)
    ensures |ks| == |metas|
    ensures forall i :: 0 <= i < |metas| ==> ks[i] == FileIdOrUnknown(metas[i])
  {
    if metas == [] then [] else [FileIdOrUnknown(metas[0])] + Keys(metas[1..])
  }

  lemma KeysAppend(metas: seq<Meta>, more: seq<Meta>)
    ensures Keys(metas + more) == Keys(metas) + Keys(more)
  {
  }

  /** The listing entry made from the first record seen for a key. */
  function EntryOf(m: Meta): FileEntry {
    FileEntry(m.source.GetOr("unknown"), m.pages.GetOr(Unknown), m.place.GetOr(Unknown), None, None)
  }

  /** The first record carrying key `k`. */
  function FirstWithKey(metas: seq<Meta>, k: string): Meta
    requires k in Keys(metas)
  {
    metas[FirstIndex(Keys(metas), k)]
  }

  /** The `unique_files` dictionary built by the loop of `list_files`, as
      (key, entry) pairs in insertion order: a record whose key is new adds
      an entry, any other record is skipped. */
  function UniqueFiles(metas: seq<Meta>): seq<(string, FileEntry)>
  {
    if metas == [] then []
    else
      var u := UniqueFiles(metas[..|metas| - 1]);
      var m := metas[|metas| - 1];
      if FileIdOrUnknown(m) in Keys(metas[..|metas| - 1]) then u
      else u + [(FileIdOrUnknown(m), EntryOf(m))]
  }

  /** The pairs' keys are exactly `ks`, in order. */
  predicate KeysAre(u: seq<(string, FileEntry)>, ks: seq<string>) {
    |u| == |ks| && forall i :: 0 <= i < |u| ==> u[i].0 == ks[i]
  }

  /** Each pair holds the entry of the first record carrying its key. */
  predicate EntriesFrom(metas: seq<Meta>, u: seq<(string, FileEntry)>) {
    forall i :: 0 <= i < |u| ==> u[i].0 in Keys(metas) && u[i].1 == EntryOf(FirstWithKey(metas, u[i].0))
  }

  /** What the loop's dictionary holds: one pair per distinct key, in first
      appearance order, with the entry of the first record seen for it. */
  predicate UniqueSpec(metas: seq<Meta>, u: seq<(string, FileEntry)>) {
    KeysAre(u, Dedup(Keys(metas))) && EntriesFrom(metas, u)
  }

  lemma FirstWithKeyPrefix(init: seq<Meta>, m: Meta, key: string)
    requires key in Keys(init)
    ensures key in Keys(init + [m]) && FirstWithKey(init + [m], key) == FirstWithKey(init, key)
  {
    KeysAppend(init, [m]);
    assert Keys([m]) == [FileIdOrUnknown(m)];
    FirstIndexPrefix(Keys(init), [FileIdOrUnknown(m)], key);
    var j := FirstIndex(Keys(init), key);
    assert FirstIndex(Keys(init + [m]), key) == j;
    assert j < |init| && (init + [m])[j] == init[j];
  }

  /** The pairs collected so far keep their entries when one more record
      arrives. */
  lemma UniqueEntriesKept(init: seq<Meta>, m: Meta, u: seq<(string, FileEntry)>)
    requires EntriesFrom(init, u)
    ensures EntriesFrom(init + [m], u)
  {
    forall i | 0 <= i < |u|
      ensures u[i].0 in Keys(init + [m]) && u[i].1 == EntryOf(FirstWithKey(init + [m], u[i].0))
    {
      FirstWithKeyPrefix(init, m, u[i].0);
    }
  }

  /** A record whose key is new is the first record with that key. */
  lemma FirstWithNewKey(init: seq<Meta>, m: Meta)
    requires FileIdOrUnknown(m) !in Keys(init)
    ensures FileIdOrUnknown(m) in Keys(init + [m]) && FirstWithKey(init + [m], FileIdOrUnknown(m)) == m
  {
    var k := FileIdOrUnknown(m);
    KeysAppend(init, [m]);
    assert Keys([m]) == [k];
    assert Keys(init + [m]) == Keys(init) + [k];
    assert Keys(init + [m])[|init|] == k;
    assert forall j :: 0 <= j < |init| ==> Keys(init + [m])[j] != k;
    assert FirstIndex(Keys(init + [m]), k) == |init|;
  }

  lemma EntriesFromNew(init: seq<Meta>, m: Meta, u: seq<(string, FileEntry)>)
    requires EntriesFrom(init, u)
    requires FileIdOrUnknown(m) !in Keys(init)
    ensures EntriesFrom(init + [m], u + [(FileIdOrUnknown(m), EntryOf(m))])
  {
    UniqueEntriesKept(init, m, u);
    FirstWithNewKey(init, m);
    var u' := u + [(FileIdOrUnknown(m), EntryOf(m))];
    forall i | 0 <= i < |u'|
      ensures u'[i].0 in Keys(init + [m]) && u'[i].1 == EntryOf(FirstWithKey(init + [m], u'[i].0))
    {
      if i < |u| {
        assert u'[i] == u[i];
      }
    }
  }

  lemma KeysAreAppend(u: seq<(string, FileEntry)>, ks: seq<string>, k: string, e: FileEntry)
    requires KeysAre(u, ks)
    ensures KeysAre(u + [(k, e)], ks + [k])
  {
  }

  lemma UniqueStepOld(init: seq<Meta>, m: Meta)
    requires UniqueSpec(init, UniqueFiles(init))
    requires FileIdOrUnknown(m) in Keys(init)
    ensures UniqueSpec(init + [m], UniqueFiles(init + [m]))
  {
    var k := FileIdOrUnknown(m);
    assert (init + [m])[..|init + [m]| - 1] == init;
    KeysAppend(init, [m]);
    assert Keys([m]) == [k];
    UniqueEntriesKept(init, m, UniqueFiles(init));
    DedupAppendOld(Keys(init), k);
  }

  lemma UniqueStepNew(init: seq<Meta>, m: Meta)
    requires UniqueSpec(init, UniqueFiles(init))
    requires FileIdOrUnknown(m) !in Keys(init)
    ensures UniqueSpec(init + [m], UniqueFiles(init + [m]))
  {
    var k := FileIdOrUnknown(m);
    assert (init + [m])[..|init + [m]| - 1] == init;
    var u := UniqueFiles(init);
    assert UniqueFiles(init + [m]) == u + [(k, EntryOf(m))];
    KeysAppend(init, [m]);
    assert Keys([m]) == [k];
    DedupAppendNew(Keys(init), k);
    KeysAreAppend(u, Dedup(Keys(init)), k, EntryOf(m));
    EntriesFromNew(init, m, u);
  }

  lemma {:induction false} UniqueFilesSpec(metas: seq<Meta>)
    ensures UniqueSpec(metas, UniqueFiles(metas))
    decreases |metas|
  {
    if metas != [] {
      var init := metas[..|metas| - 1];
      var m := metas[|metas| - 1];
      assert init + [m] == metas;
      UniqueFilesSpec(init);
      if FileIdOrUnknown(m) in Keys(init) {
        UniqueStepOld(init, m);
      } else {
        UniqueStepNew(init, m);
      }
    }
  }

  function EntriesOf(u: seq<(string, FileEntry)>): (es: seq<FileEntry>)
    ensures |es| == |u|
    ensures forall i :: 0 <= i < |u| ==> es[i] == u[i].1
  {
    if u == [] then [] else [u[0].1] + EntriesOf(u[1..])
  }

  /** `list_files`: with no records, the "no files" reply; otherwise one entry
      per distinct `file_id` (records without one pooled under "unknown"),
      in order of first appearance, each taken from the first record seen for
      that key, and a count equal to the number of entries. Entries carry no
      `file_id`. */
  function ListFiles(metas: seq<Meta>): (l: Listing)
    ensures metas == [] <==> l.NoFiles?
    ensures l.Files? ==> l.count == |l.files| == |Dedup(Keys(metas))|
    ensures l.Files? ==> forall i :: 0 <= i < |l.files| ==>
              l.files[i] == EntryOf(FirstWithKey(metas, Dedup(Keys(metas))[i]))
    ensures forall e :: e in Entries(l) ==> e.fileId.None? && e.totalPages.None?
  {
    if metas == [] then NoFiles
    else
      var u := UniqueFiles(metas);
      UniqueFilesSpec(metas);
      Files(|u|, EntriesOf(u))
  }

  /** The number of entries `list_files` reports. */
  function FileCount(store: seq<Chunk>): nat {
    Count(ListFiles(Metas(store)))
  }

  /** The listing its consumers expect (the chat tool describes it as
      "filename, total_pages, place, file_id"): the same entries, each
      carrying its `file_id` key and its page count as `total_pages`. */
  function ListFilesWithIds(metas: seq<Meta>): (l: Listing)
    ensures metas == [] <==> l.NoFiles?
    ensures Count(l) == Count(ListFiles(metas))
    ensures |Entries(l)| == |Entries(ListFiles(metas))|
    ensures forall i :: 0 <= i < |Entries(l)| ==>
              Entries(l)[i] == Entries(ListFiles(metas))[i].(fileId := Some(Dedup(Keys(metas))[i]),
                                                            totalPages := Some(Entries(ListFiles(metas))[i].pages))
  {
    match ListFiles(metas)
    case NoFiles => NoFiles
    case Files(n, fs) =>
      var ks := Dedup(Keys(metas));
      Files(n, seq(|fs|, i requires 0 <= i < |fs| => fs[i].(fileId := Some(ks[i]), totalPages := Some(fs[i].pages))))
  }

  /** Every stored `file_id` (or "unknown" for records without one) is listed,
      and nothing else is. */
  lemma ListFilesWithIdsKeys(metas: seq<Meta>, k: string)
    ensures (exists e :: e in Entries(ListFilesWithIds(metas)) && e.fileId == Some(k)) <==> k in Keys(metas)
  {
    var l := ListFilesWithIds(metas);
    var ks := Dedup(Keys(metas));
    if k in Keys(metas) {
      assert metas != [];
      var i :| 0 <= i < |ks| && ks[i] == k;
      assert Entries(l)[i].fileId == Some(k);
      assert Entries(l)[i] in Entries(l);
    }
    if exists e :: e in Entries(l) && e.fileId == Some(k) {
      var e :| e in Entries(l) && e.fileId == Some(k);
      var i :| 0 <= i < |Entries(l)| && Entries(l)[i] == e;
      assert ks[i] in ks;
    }
  }

  // ---------------------------------------------------------------------
  // File names and ids
  // ---------------------------------------------------------------------

  function LastIndexOf(s: string, c: char): (r: Option<nat>)
    ensures r.Some? ==> r.value < |s| && s[r.value] == c
    ensures r.Some? ==> forall k :: r.value < k < |s| ==> s[k] != c
    ensures r.None? <==> c !in s
  {
    if s == [] then None
    else if s[|s| - 1] == c then Some(|s| - 1)
    else
      var r := LastIndexOf(s[..|s| - 1], c);
      assert s == s[..|s| - 1] + [s[|s| - 1]];
      r
  }

  /** Path components that name something: neither empty nor ".". */
  function NamedComponents(parts: seq<string>): (r: seq<string>)
    ensures forall k :: 0 <= k < |r| ==> r[k] in parts
  {
    if parts == [] then []
    else if parts[0] == "" || parts[0] == "." then NamedComponents(parts[1..])
    else [parts[0]] + NamedComponents(parts[1..])
  }

  /** `Path(p).name` for a POSIX path: its last component. */
  function PathName(p: string): (name: string)
    ensures '/' !in name
  {
    var comps := NamedComponents(Split(p, '/'));
    if comps == [] then "" else comps[|comps| - 1]
  }

  /** `Path(...).stem` of a name: everything before the last dot, unless that
      dot is the first or the last character. */
  function Stem(name: string): (stem: string)
    ensures |stem| <= |name| && name[..|stem|] == stem
  {
    var i := LastIndexOf(name, '.');
    if i.Some? && 0 < i.value < |name| - 1 then name[..i.value] else name
  }

  /** A stem drops exactly one non-empty extension. */
  lemma StemDropsExtension(base: string, ext: string)
    requires base != [] && ext != [] && '.' !in ext && '/' !in base + ext
    ensures Stem(base + "." + ext) == base
  {
    var name := base + "." + ext;
    var i := LastIndexOf(name, '.');
    assert name[|base|] == '.';
    assert i.Some?;
    assert i.value == |base|;
    assert name[..|base|] == base;
  }

  /** `str.replace(a, b)` for single characters. */
  function ReplaceChar(s: string, a: char, b: char): (r: string)
    ensures |r| == |s|
    ensures forall i :: 0 <= i < |s| ==> r[i] == if s[i] == a then b else s[i]
  {
    if s == [] then [] else [if s[0] == a then b else s[0]] + ReplaceChar(s[1..], a, b)
  }

  /** `Path(filename).stem.lower().replace(" ", "-")`, the id `upload_file`
      stores; it never contains a space. */
  function UploadFileId(filename: string): (fid: string)
    ensures ' ' !in fid
    ensures |fid| == |Stem(PathName(filename))|
    ensures forall i :: 0 <= i < |fid| ==>
              fid[i] == if Stem(PathName(filename))[i] == ' ' then '-' else LowerChar(Stem(PathName(filename))[i])
  {
    ReplaceChar(Lower(Stem(PathName(filename))), ' ', '-')
  }

  // ---------------------------------------------------------------------
  // extract_text
  // ---------------------------------------------------------------------

  /** One extracted page: its 1-based number and its text. */
  datatype Page = Page(number: nat, text: string)

  function NumberPages(texts: seq<string>, first: nat): (ps: seq<Page>)
    ensures |ps| == |texts|
    ensures forall i :: 0 <= i < |texts| ==> ps[i] == Page(first + i, texts[i])
  {
    if texts == [] then [] else [Page(first, texts[0])] + NumberPages(texts[1..], first + 1)
  }

  /** `extract_text`, dispatching on the lower-cased extension. The PDF
      reader's outcome (its per-page texts, or the message of the exception
      it raises on an unreadable file) and the decoded file content are
      inputs (the decoders are not modelled); a readable PDF yields its pages
      numbered from 1, any other file exactly one page numbered 1; an
      unreadable PDF fails, and so does an `.rtf` file when the RTF converter
      is not installed. */
  function ExtractText(filename: string, pdfTexts: Result<seq<string>, string>, decoded: string,
                       rtfInstalled: bool)
    : (r: Result<seq<Page>, string>)
    ensures EndsWith(Lower(filename), ".pdf") && pdfTexts.Ok? ==>
              r.Ok? && |r.value| == |pdfTexts.value|
              && forall i :: 0 <= i < |pdfTexts.value| ==> r.value[i] == Page(i + 1, pdfTexts.value[i])
    ensures !EndsWith(Lower(filename), ".pdf") && r.Ok? ==> r.value == [Page(1, decoded)]
    ensures r.Err? <==> || (EndsWith(Lower(filename), ".pdf") && pdfTexts.Err?)
                        || (&& !EndsWith(Lower(filename), ".pdf") && !EndsWith(Lower(filename), ".txt")
                            && !EndsWith(Lower(filename), ".utf-8") && EndsWith(Lower(filename), ".rtf")
                            && !rtfInstalled)
  {
    var name := Lower(filename);
    if EndsWith(name, ".pdf") then
      if pdfTexts.Err? then Err(pdfTexts.error) else Ok(NumberPages(pdfTexts.value, 1))
    else if EndsWith(name, ".txt") || EndsWith(name, ".utf-8") then Ok([Page(1, decoded)])
    else if EndsWith(name, ".rtf") then
      if !rtfInstalled then Err("striprtf package not installed. Run `pip install striprtf`.")
      else Ok([Page(1, decoded)])
    else Ok([Page(1, decoded)])
  }

  // ---------------------------------------------------------------------
  // upload_file
  // ---------------------------------------------------------------------

  const EmbeddingModel := "text-embedding-3-large"

  datatype UploadReply =
    | DuplicateSkipped(message: string)
    | Uploaded(message: string, pages: nat)

  /** The `place` given to a new upload: one more than the number of
      distinct `meta.get("file_id", "unknown")` keys already stored. */
  function Place(store: seq<Chunk>): nat {
    |Dedup(Keys(Metas(store)))| + 1
  }

  /** The ids the duplicate check compares against: the truthy `file_id`s. */
  function ExistingIds(store: seq<Chunk>): set<string> {
    set c | c in store && c.meta.fileId.Some? && c.meta.fileId.value != "" :: c.meta.fileId.value
  }

  /** `not page_text.strip()`: the page holds only whitespace. */
  predicate Blank(p: Page) {
    AllSpace(p.text)
  }

  /** The metadata `upload_file` writes for one kept page. */
  function PageMeta(fid: string, filename: string, place: nat, maxPages: nat, uploadedAt: string,
                    p: Page): Meta
  {
    Meta(Some(fid), Some(filename), Some(VInt(p.number)), Some(VInt(maxPages)), Some(VInt(place)),
         None, Some(|Strip(p.text)|), Some(EmbeddingModel), Some(uploadedAt))
  }

  /** The pages whose stripped text is non-empty, in page order. */
  function NonBlank(pages: seq<Page>): (kept: seq<Page>)
    ensures |kept| <= |pages|
    ensures forall k :: 0 <= k < |kept| ==> !Blank(kept[k])
  {
    if pages == [] then []
    else if Blank(pages[0]) then NonBlank(pages[1..])
    else [pages[0]] + NonBlank(pages[1..])
  }

  /** A page is kept exactly when it is one of the pages and not blank. */
  lemma {:induction false} NonBlankMembers(pages: seq<Page>, p: Page)
    ensures p in NonBlank(pages) <==> p in pages && !Blank(p)
    decreases |pages|
  {
    if pages != [] {
      assert pages == [pages[0]] + pages[1..];
      NonBlankMembers(pages[1..], p);
    }
  }

  lemma {:induction false} NonBlankAppend(a: seq<Page>, b: seq<Page>)
    ensures NonBlank(a + b) == NonBlank(a) + NonBlank(b)
    decreases |a|
  {
    if a == [] {
      assert a + b == b;
    } else {
      assert (a + b)[0] == a[0];
      assert (a + b)[1..] == a[1..] + b;
      NonBlankAppend(a[1..], b);
      if !Blank(a[0]) {
        assert NonBlank(a + b) == [a[0]] + NonBlank(a[1..] + b);
        assert NonBlank(a) == [a[0]] + NonBlank(a[1..]);
      }
    }
  }

  /** The chunk stored for one kept page. */
  function PageRecord(fid: string, filename: string, place: nat, maxPages: nat, uploadedAt: string,
                      p: Page): Chunk
  {
    Chunk(Strip(p.text), PageMeta(fid, filename, place, maxPages, uploadedAt, p))
  }

  /** The chunks added for the extracted pages: one per kept page, in page
      order, all sharing the file's id. */
  function PageRecords(fid: string, filename: string, place: nat, maxPages: nat, uploadedAt: string,
                       pages: seq<Page>): (recs: seq<Chunk>)
    ensures |recs| == |NonBlank(pages)|
    ensures forall k :: 0 <= k < |recs| ==>
              recs[k] == PageRecord(fid, filename, place, maxPages, uploadedAt, NonBlank(pages)[k])
    ensures forall c :: c in recs ==> c.meta.fileId == Some(fid)
  {
    var kept := NonBlank(pages);
    seq(|kept|, k requires 0 <= k < |kept| => PageRecord(fid, filename, place, maxPages, uploadedAt, kept[k]))
  }

  /** Each stored page record holds the page's stripped text, which is never
      empty, its page number and character count, and the file-wide fields. */
  lemma PageRecordsContent(fid: string, filename: string, place: nat, maxPages: nat, uploadedAt: string,
                           pages: seq<Page>, k: nat)
    requires k < |NonBlank(pages)|
    ensures var r := PageRecords(fid, filename, place, maxPages, uploadedAt, pages)[k];
            var p := NonBlank(pages)[k];
            && p in pages
            && r.doc != [] && r.doc == Strip(p.text)
            && r.meta.page == Some(VInt(p.number))
            && r.meta.charCount == Some(|r.doc|)
            && r.meta.fileId == Some(fid) && r.meta.source == Some(filename)
            && r.meta.place == Some(VInt(place)) && r.meta.pages == Some(VInt(maxPages))
            && r.meta.embeddingModel == Some(EmbeddingModel) && r.meta.uploadedAt == Some(uploadedAt)
            && r.meta.chunkIndex.None?
  {
    var p := NonBlank(pages)[k];
    NonBlankMembers(pages, p);
  }

  /** What the server answers when the route raises: `collection.add` with
      empty lists is rejected by the store with a `ValueError`. */
  const InternalErrorText := "Internal Server Error"

  /** `upload_file`. Extraction happens first (an `.rtf` without its
      converter fails with a server error); a file whose normalised id is
      already stored is skipped without any change; a file with no
      non-blank page reaches `collection.add` with empty lists, which
      raises; otherwise the kept pages are appended and the reply reports
      how many chunks were added. */
  function UploadFile(store: seq<Chunk>, filename: string, extracted: Result<seq<Page>, string>,
                      uploadedAt: string): (o: Outcome<UploadReply>)
    ensures extracted.Err? ==> o.reply == Err(HttpError(500, InternalErrorText)) && o.store == store
    ensures extracted.Ok? && UploadFileId(filename) in ExistingIds(store) ==>
              o.reply.Ok? && o.reply.value.DuplicateSkipped? && o.store == store
    ensures extracted.Ok? && UploadFileId(filename) !in ExistingIds(store) && NonBlank(extracted.value) == [] ==>
              o.reply == Err(HttpError(500, InternalErrorText)) && o.store == store
    ensures extracted.Ok? && UploadFileId(filename) !in ExistingIds(store) && NonBlank(extracted.value) != [] ==>
              && o.reply.Ok? && o.reply.value.Uploaded?
              && |o.store| > |store| && o.store[..|store|] == store
              && o.reply.value.pages == |o.store| - |store|
              && o.store[|store|..] == PageRecords(UploadFileId(filename), filename, Place(store),
                                                   |extracted.value|, uploadedAt, extracted.value)
  {
    if extracted.Err? then Outcome(Err(HttpError(500, InternalErrorText)), store)
    else
      var pages := extracted.value;
      var place := Place(store);
      var fid := UploadFileId(filename);
      if fid in ExistingIds(store) then
        Outcome(Ok(DuplicateSkipped("Duplicate upload skipped: '" + filename + "' already exists in database.")), store)
      else
        var recs := PageRecords(fid, filename, place, |pages|, uploadedAt, pages);
        if recs == [] then Outcome(Err(HttpError(500, InternalErrorText)), store)
        else
          var store' := store + recs;
          assert store'[..|store|] == store && store'[|store|..] == recs;
          Outcome(Ok(Uploaded("Uploaded and processed " + filename, |recs|)), store')
  }

  /** A new upload's place is one more than the count `list_files` reports. */
  lemma PlaceIsNextListingPosition(store: seq<Chunk>)
    ensures Place(store) == FileCount(store) + 1
  {
  }

  // ---------------------------------------------------------------------
  // collection.delete(where=...) and delete_file
  // ---------------------------------------------------------------------

  /** `collection.delete(where=f)`: exactly the chunks satisfying `f` go,
      the rest stay in order. */
  function DeleteWhere(store: seq<Chunk>, f: Filter): (r: seq<Chunk>)
    ensures |r| <= |store|
  {
    if store == [] then []
    else
      var rest := DeleteWhere(store[1..], f);
      if Holds(f, store[0].meta) then rest else [store[0]] + rest
  }

  /** A chunk survives the delete exactly when it is stored and does not
      satisfy the filter. */
  lemma {:induction false} DeleteWhereMembers(store: seq<Chunk>, f: Filter, c: Chunk)
    ensures c in DeleteWhere(store, f) <==> c in store && !Holds(f, c.meta)
    decreases |store|
  {
    if store != [] {
      assert store == [store[0]] + store[1..];
      DeleteWhereMembers(store[1..], f, c);
    }
  }

  /** Deleting with a filter no stored chunk satisfies changes nothing. */
  lemma {:induction false} DeleteWhereNone(store: seq<Chunk>, f: Filter)
    requires forall c :: c in store ==> !Holds(f, c.meta)
    ensures DeleteWhere(store, f) == store
    decreases |store|
  {
    if store != [] {
      assert store[0] in store;
      assert forall c :: c in store[1..] ==> c in store;
      DeleteWhereNone(store[1..], f);
      assert store == [store[0]] + store[1..];
    }
  }

  lemma {:induction false} DeleteWhereAppend(a: seq<Chunk>, b: seq<Chunk>, f: Filter)
    ensures DeleteWhere(a + b, f) == DeleteWhere(a, f) + DeleteWhere(b, f)
    decreases |a|
  {
    if a == [] {
      assert a + b == b;
    } else {
      assert (a + b)[0] == a[0];
      assert (a + b)[1..] == a[1..] + b;
      DeleteWhereAppend(a[1..], b, f);
      if !Holds(f, a[0].meta) {
        assert DeleteWhere(a + b, f) == [a[0]] + DeleteWhere(a[1..] + b, f);
        assert DeleteWhere(a, f) == [a[0]] + DeleteWhere(a[1..], f);
      }
    }
  }

  /** The filter `{"file_id": id}`. */
  function ByFileId(id: string): Filter {
    Eq("file_id", VStr(id))
  }

  lemma HoldsByFileId(m: Meta, id: string)
    ensures Holds(ByFileId(id), m) <==> m.fileId == Some(id)
  {
    assert Field(m, "file_id") == if m.fileId.Some? then Some(VStr(m.fileId.value)) else None;
  }

  datatype DeleteReply = DeleteReply(message: string, remaining: nat, files: seq<FileEntry>)

  const ChromaDeleteErrorText := "Error deleting from Chroma: "

  /** `delete_file` once the listing is known: the id is lower-cased and
      stripped; unless some listed entry carries that `file_id` the route
      answers 404 and deletes nothing; if `collection.delete` raises (its
      message is `deleteError`) the route answers 500 and the store is as it
      was; otherwise exactly the chunks with that `file_id` are removed and
      the remaining count is re-listed. */
  function DeleteFileGiven(listing: Listing, store: seq<Chunk>, fileId: string, deleteError: Option<string>)
    : (o: Outcome<DeleteReply>)
    ensures var id := Strip(Lower(fileId));
            (forall e :: e in Entries(listing) ==> e.fileId != Some(id)) <==> (o.reply.Err? && o.reply.error.status == 404)
    ensures o.reply.Ok? <==> (exists e :: e in Entries(listing) && e.fileId == Some(Strip(Lower(fileId)))) && deleteError.None?
    ensures o.reply.Err? ==> o.store == store
    ensures o.reply.Err? && o.reply.error.status != 404 ==>
              deleteError.Some? && o.reply.error == HttpError(500, ChromaDeleteErrorText + deleteError.value)
    ensures o.reply.Ok? ==>
              && (forall c :: c in o.store <==> c in store && c.meta.fileId != Some(Strip(Lower(fileId))))
              && o.reply.value.remaining == FileCount(o.store)
  {
    var id := Strip(Lower(fileId));
    if forall e :: e in Entries(listing) ==> e.fileId != Some(id) then
      Outcome(Err(HttpError(404, "File '" + fileId + "' not found in database.")), store)
    else if deleteError.Some? then
      Outcome(Err(HttpError(500, ChromaDeleteErrorText + deleteError.value)), store)
    else
      var store' := DeleteWhere(store, ByFileId(id));
      forall c
        ensures c in store' <==> c in store && c.meta.fileId != Some(id)
      {
        DeleteWhereMembers(store, ByFileId(id), c);
        HoldsByFileId(c.meta, id);
      }
      var updated := ListFiles(Metas(store'));
      Outcome(Ok(DeleteReply("File '" + fileId + "' deleted successfully from database and uploads.",
                             Count(updated), Entries(updated))), store')
  }

  /** `delete_file` as written: the existence check consults `list_files`. */
  function DeleteFile(store: seq<Chunk>, fileId: string, deleteError: Option<string>): (o: Outcome<DeleteReply>)
    ensures o.reply.Err? ==> o.store == store
  {
    DeleteFileGiven(ListFiles(Metas(store)), store, fileId, deleteError)
  }

  /** Because listing entries carry no `file_id`, the existence check of
      `delete_file` never succeeds: every call is a 404 and the store is left
      as it was. */
  lemma DeleteFileNeverFinds(store: seq<Chunk>, fileId: string, deleteError: Option<string>)
    ensures DeleteFile(store, fileId, deleteError).reply.Err?
    ensures DeleteFile(store, fileId, deleteError).reply.error.status == 404
    ensures DeleteFile(store, fileId, deleteError).store == store
  {
  }

  // ---------------------------------------------------------------------
  // Cross-operation properties
  // ---------------------------------------------------------------------

  /** Deleting by the id of a fresh upload removes exactly what the upload
      added. */
  lemma {:induction false} UploadThenDeleteRestores(store: seq<Chunk>, filename: string,
                                                    pages: seq<Page>, uploadedAt: string)
    requires forall c :: c in store ==> c.meta.fileId != Some(UploadFileId(filename))
    ensures DeleteWhere(UploadFile(store, filename, Ok(pages), uploadedAt).store,
                        ByFileId(UploadFileId(filename))) == store
  {
    var fid := UploadFileId(filename);
    var o := UploadFile(store, filename, Ok(pages), uploadedAt);
    forall c | c in store
      ensures !Holds(ByFileId(fid), c.meta)
    {
      HoldsByFileId(c.meta, fid);
    }
    DeleteWhereNone(store, ByFileId(fid));
    var recs := PageRecords(fid, filename, Place(store), |pages|, uploadedAt, pages);
    if fid !in ExistingIds(store) && recs != [] {
      assert o.store == store + recs;
      DeleteWhereAppend(store, recs, ByFileId(fid));
      forall c | c in recs
        ensures Holds(ByFileId(fid), c.meta)
      {
        HoldsByFileId(c.meta, fid);
      }
      DeleteWhereAll(recs, ByFileId(fid));
    }
  }

  /** `delete_file` over the listing that carries ids. */
  function DeleteFileWithIds(store: seq<Chunk>, fileId: string, deleteError: Option<string>)
    : (o: Outcome<DeleteReply>)
    ensures o.reply.Err? <==> Strip(Lower(fileId)) !in Keys(Metas(store)) || deleteError.Some?
    ensures o.reply.Err? ==> o.store == store
    ensures o.reply.Ok? ==> o.store == DeleteWhere(store, ByFileId(Strip(Lower(fileId))))
  {
    ListFilesWithIdsKeys(Metas(store), Strip(Lower(fileId)));
    DeleteFileGiven(ListFilesWithIds(Metas(store)), store, fileId, deleteError)
  }

  /** An uploaded id is already lower case, so the delete route's
      lower-casing never changes it. */
  lemma UploadFileIdLower(filename: string)
    ensures Lower(UploadFileId(filename)) == UploadFileId(filename)
  {
    var fid := UploadFileId(filename);
    forall i | 0 <= i < |fid|
      ensures LowerChar(fid[i]) == fid[i]
    {
      var c := Stem(PathName(filename))[i];
      if c != ' ' {
        assert fid[i] == LowerChar(c);
      }
    }
  }

  /** With ids in the listing, deleting a fresh upload by its id succeeds
      and restores the store exactly, provided the upload kept a page and
      the id survives the route's stripping. The id of a stem with leading
      or trailing white space other than a plain space does not: "\tx.pdf"
      is stored under "\tx", the route strips the target to "x"
      (`StrippedIdMissesUpload`), and the delete answers 404 even with ids
      in the listing. */
  lemma UploadThenDeleteWithIds(store: seq<Chunk>, filename: string, pages: seq<Page>, uploadedAt: string)
    requires forall c :: c in store ==> c.meta.fileId != Some(UploadFileId(filename))
    requires exists p :: p in pages && !Blank(p)
    requires Strip(UploadFileId(filename)) == UploadFileId(filename)
    ensures var up := UploadFile(store, filename, Ok(pages), uploadedAt);
            var del := DeleteFileWithIds(up.store, UploadFileId(filename), None);
            up.reply.Ok? && del.reply.Ok? && del.store == store
  {
    UploadFileIdLower(filename);
    var fid := UploadFileId(filename);
    var up := UploadFile(store, filename, Ok(pages), uploadedAt);
    UploadedIdListed(store, filename, pages, uploadedAt);
    UploadThenDeleteRestores(store, filename, pages, uploadedAt);
    var del := DeleteFileWithIds(up.store, fid, None);
    assert del.reply.Ok?;
  }

  /** A name without '/' that is neither empty nor "." is its own last
      component. */
  lemma PathNamePlain(p: string)
    requires '/' !in p && p != "" && p != "."
    ensures PathName(p) == p
  {
    SplitNoSep(p, '/');
    assert NamedComponents([p]) == [p] + NamedComponents([]);
  }

  /** The id "\tx" that "\tx.pdf" is stored under is not the target the
      delete route looks up for it. */
  lemma StrippedIdMissesUpload()
    ensures UploadFileId("\tx.pdf") == "\tx"
    ensures Strip(Lower("\tx")) == "x"
  {
    TabStem();
    TabIdLower();
    TabStrip();
  }

  lemma TabStem()
    ensures Stem(PathName("\tx.pdf")) == "\tx"
  {
    var name := "\tx.pdf";
    assert name == "\tx" + "." + "pdf";
    PathNamePlain(name);
    StemDropsExtension("\tx", "pdf");
  }

  lemma TabIdLower()
    ensures Lower("\tx") == "\tx"
    ensures ReplaceChar("\tx", ' ', '-') == "\tx"
  {
  }

  lemma TabStrip()
    ensures Strip("\tx") == "x"
  {
    var t := "\tx";
    assert IsSpace(t[0]) && !IsSpace(t[1]);
    assert LeadingSpaces(t[1..]) == 0;
    assert LeadingSpaces(t) == 1;
    assert TrailingStart(t) == 2;
    assert t[1..2] == "x";
  }

  /** A fresh upload that kept a page puts its id among the stored keys. */
  lemma UploadedIdListed(store: seq<Chunk>, filename: string, pages: seq<Page>, uploadedAt: string)
    requires forall c :: c in store ==> c.meta.fileId != Some(UploadFileId(filename))
    requires exists p :: p in pages && !Blank(p)
    ensures UploadFile(store, filename, Ok(pages), uploadedAt).reply.Ok?
    ensures UploadFileId(filename) in Keys(Metas(UploadFile(store, filename, Ok(pages), uploadedAt).store))
  {
    var fid := UploadFileId(filename);
    var up := UploadFile(store, filename, Ok(pages), uploadedAt);
    assert fid !in ExistingIds(store);
    var recs := PageRecords(fid, filename, Place(store), |pages|, uploadedAt, pages);
    assert up.store == store + recs;
    var p :| p in pages && !Blank(p);
    NonBlankMembers(pages, p);
    assert |recs| > 0;
    var ms := Metas(up.store);
    assert ms[|store|] == recs[0].meta;
    assert Keys(ms)[|store|] == fid;
  }

  lemma {:induction false} DeleteWhereAll(cs: seq<Chunk>, f: Filter)
    requires forall c :: c in cs ==> Holds(f, c.meta)
    ensures DeleteWhere(cs, f) == []
    decreases |cs|
  {
    if cs != [] {
      assert cs[0] in cs;
      assert forall c :: c in cs[1..] ==> c in cs;
      DeleteWhereAll(cs[1..], f);
    }
  }
}
