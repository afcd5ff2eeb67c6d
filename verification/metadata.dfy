/**
 * The vector store's data as the application sees it: per-chunk metadata
 * records, stored chunks, the `where` filter language (equality leaves under
 * `$or` / `$and`), and the listing entries produced by `list_files`.
 * Embeddings are not represented; the store is the sequence of its records.
 */
module Metadata {
  import opened Util

  /** A metadata value: the application stores integers and strings, and
      matches pages against both (`{"page": 3}` and `{"page": "3"}`). */
  datatype Value = VInt(i: int) | VStr(s: string)

  /** The `"unknown"` default used throughout the application. */
  const Unknown: Value := VStr("unknown")

  /** `str(v)` */
  function ValueText(v: Value): string {
    match v
    case VInt(i) => IntToString(i)
    case VStr(s) => s
  }

  /** Python's rendering of an optional string inside an f-string. */
  function OptText(o: Option<string>): string {
    if o.Some? then o.value else "None"
  }

  /** One chunk's metadata dictionary; a missing key is `None`. */
  datatype Meta = Meta(
    fileId: Option<string>,
    source: Option<string>,
    page: Option<Value>,
    pages: Option<Value>,
    place: Option<Value>,
    chunkIndex: Option<int>,
    charCount: Option<int>,
    embeddingModel: Option<string>,
    uploadedAt: Option<string>)

  const NoMeta := Meta(None, None, None, None, None, None, None, None, None)

  /** An empty (falsy) metadata dictionary. */
  predicate IsEmpty(m: Meta) {
    m == NoMeta
  }

  /** `m.get(key)` by key name, as the store's filter sees it. */
  function Field(m: Meta, key: string): Option<Value> {
    match key
    case "file_id" => if m.fileId.Some? then Some(VStr(m.fileId.value)) else None
    case "source" => if m.source.Some? then Some(VStr(m.source.value)) else None
    case "page" => m.page
    case "pages" => m.pages
    case "place" => m.place
    case "chunk_index" => if m.chunkIndex.Some? then Some(VInt(m.chunkIndex.value)) else None
    case "char_count" => if m.charCount.Some? then Some(VInt(m.charCount.value)) else None
    case "embedding_model" => if m.embeddingModel.Some? then Some(VStr(m.embeddingModel.value)) else None
    case "uploaded_at" => if m.uploadedAt.Some? then Some(VStr(m.uploadedAt.value)) else None
    case _ => None
  }

  /** `meta.get("file_id", "unknown")` */
  function FileIdOrUnknown(m: Meta): string {
    m.fileId.GetOr("unknown")
  }

  /** One stored chunk: its document text and metadata. */
  datatype Chunk = Chunk(doc: string, meta: Meta)

  function Metas(cs: seq<Chunk>): (ms: seq<Meta>)
    ensures |ms| == |cs|
    ensures forall i :: 0 <= i < |cs| ==> ms[i] == cs[i].meta
  {
    if cs == [] then [] else [cs[0].meta] + Metas(cs[1..])
  }

  // ---------------------------------------------------------------------
  // The `where` filter language
  // ---------------------------------------------------------------------

  /** `{key: value}`, `{"$or": [...]}` and `{"$and": [...]}`. */
  datatype Filter =
    | Eq(key: string, val: Value)
    | AnyOf(alts: seq<Filter>)
    | AllOf(parts: seq<Filter>)

  /** Whether a record satisfies a filter. */
  predicate Holds(f: Filter, m: Meta)
    decreases f
  {
    match f
    case Eq(k, v) => Field(m, k) == Some(v)
    case AnyOf(fs) => exists i :: 0 <= i < |fs| && Holds(fs[i], m)
    case AllOf(fs) => forall i :: 0 <= i < |fs| ==> Holds(fs[i], m)
  }

  lemma HoldsAnyOfTwo(a: Filter, b: Filter, m: Meta)
    ensures Holds(AnyOf([a, b]), m) <==> Holds(a, m) || Holds(b, m)
  {
    var fs := [a, b];
    assert fs[0] == a && fs[1] == b;
  }

  lemma HoldsAllOfTwo(a: Filter, b: Filter, m: Meta)
    ensures Holds(AllOf([a, b]), m) <==> Holds(a, m) && Holds(b, m)
  {
    var fs := [a, b];
    assert fs[0] == a && fs[1] == b;
  }

  /** `where=filters if filters else None`: no filter admits every record. */
  predicate Admits(f: Option<Filter>, m: Meta) {
    f.None? || Holds(f.value, m)
  }

  // ---------------------------------------------------------------------
  // list_files output
  // ---------------------------------------------------------------------

  /** One entry of the `files` list. `list_files` fills only filename, pages
      and place; `fileId` and `totalPages` are the keys its consumers look up
      with `.get` or `[...]`, kept here so that those lookups are explicit. */
  datatype FileEntry = FileEntry(
    filename: string,
    pages: Value,
    place: Value,
    fileId: Option<string>,
    totalPages: Option<Value>)

  /** The response of `list_files`: either the "no files" message (count 0,
      no `files` key) or the unique-file listing. */
  datatype Listing = NoFiles | Files(count: nat, files: seq<FileEntry>)

  /** `files_info.get("files", [])` */
  function Entries(l: Listing): seq<FileEntry> {
    if l.Files? then l.files else []
  }

  /** `files_info.get("count", 0)` */
  function Count(l: Listing): nat {
    if l.Files? then l.count else 0
  }
}
