/**
 * What `ask_question` (app/routes/ask_question.py) does with the records the
 * store returned: the deduplicated source links, the file index built from
 * `list_files`, the backfill of missing file-level metadata, and the
 * grouping of chunks by file with a stable sort by `chunk_index` inside
 * each group.
 */
module Retrieval {
  import opened Util
  import opened Metadata

  // ---------------------------------------------------------------------
  // Source links (:253-275)
  // ---------------------------------------------------------------------

  datatype SourceLink = SourceLink(filename: string, page: Value, url: string)

  /** `(meta.get("source", "unknown"), meta.get("page", "unknown"))` */
  function LinkKey(m: Meta): (string, Value) {
    (m.source.GetOr("unknown"), m.page.GetOr(Unknown))
  }

  /** A non-empty record whose source and page are both known. */
  predicate Linkable(m: Meta) {
    !IsEmpty(m) && LinkKey(m).0 != "unknown" && LinkKey(m).1 != Unknown
  }

  /** The link for a (filename, page) key: `/uploads/<file>#page=<page>`. */
  function LinkOf(key: (string, Value)): SourceLink {
    SourceLink(key.0, key.1, "/uploads/" + key.0 + "#page=" + ValueText(key.1))
  }

  function KeyOfLink(l: SourceLink): (string, Value) {
    (l.filename, l.page)
  }

  /** The (filename, page) keys of a list of links. */
  function LinkKeys(links: seq<SourceLink>): set<(string, Value)> {
    set i | 0 <= i < |links| :: KeyOfLink(links[i])
  }

  /** The (filename, page) keys of the linkable records. */
  function LinkableKeys(metas: seq<Meta>): set<(string, Value)> {
    set m | m in metas && Linkable(m) :: LinkKey(m)
  }

  /** The `sources_list` loop with its `seen` set: one link per distinct
      (filename, page) among the linkable records, in order of first
      appearance. */
  function SourceLinks(metas: seq<Meta>): (links: seq<SourceLink>)
    ensures forall i, j :: 0 <= i < j < |links| ==> KeyOfLink(links[i]) != KeyOfLink(links[j])
    ensures forall i :: 0 <= i < |links| ==> links[i] == LinkOf(KeyOfLink(links[i]))
    decreases |metas|
  {
    if metas == [] then []
    else
      var prev := SourceLinks(metas[..|metas| - 1]);
      var m := metas[|metas| - 1];
      if Linkable(m) && LinkKey(m) !in LinkKeys(prev) then
        var links := prev + [LinkOf(LinkKey(m))];
        assert KeyOfLink(links[|prev|]) == LinkKey(m);
        links
      else
        prev
  }

  /** The links are exactly those of the linkable records: none is
      invented and none is lost. */
  lemma {:induction false} SourceLinksComplete(metas: seq<Meta>)
    ensures LinkKeys(SourceLinks(metas)) == LinkableKeys(metas)
    decreases |metas|
  {
    if metas != [] {
      var init := metas[..|metas| - 1];
      var m := metas[|metas| - 1];
      assert metas == init + [m];
      SourceLinksComplete(init);
      var prev := SourceLinks(init);
      var links := SourceLinks(metas);
      assert LinkableKeys(metas) == LinkableKeys(init) + (if Linkable(m) then {LinkKey(m)} else {});
      if Linkable(m) && LinkKey(m) !in LinkKeys(prev) {
        assert links == prev + [LinkOf(LinkKey(m))];
        assert LinkKeys(links) == LinkKeys(prev) + {LinkKey(m)} by {
          assert forall i :: 0 <= i < |prev| ==> links[i] == prev[i];
          assert KeyOfLink(links[|prev|]) == LinkKey(m);
        }
      }
    }
  }

  // ---------------------------------------------------------------------
  // The file index (:283-291)
  // ---------------------------------------------------------------------

  /** `{"source": ..., "pages": ..., "place": ...}` for one listed file. */
  datatype IndexInfo = IndexInfo(source: string, pages: Value, place: Value)

  /** `f.get("file_id", "unknown")` */
  function IndexKey(e: FileEntry): string {
    e.fileId.GetOr("unknown")
  }

  /** `pages` comes from the entry's `total_pages`, which defaults to
      "unknown". */
  function IndexInfoOf(e: FileEntry): IndexInfo {
    IndexInfo(e.filename, e.totalPages.GetOr(Unknown), e.place)
  }

  /** The `file_index` comprehension: one slot per key, later entries
      overwriting earlier ones. */
  function FileIndex(entries: seq<FileEntry>): (index: map<string, IndexInfo>)
    ensures index.Keys == set i | 0 <= i < |entries| :: IndexKey(entries[i])
    decreases |entries|
  {
    if entries == [] then map[]
    else
      var init := entries[..|entries| - 1];
      var e := entries[|entries| - 1];
      assert forall i :: 0 <= i < |init| ==> entries[i] == init[i];
      FileIndex(init)[IndexKey(e) := IndexInfoOf(e)]
  }

  /** The last entry with a key is the one the index keeps. */
  lemma {:induction false} FileIndexLastWins(entries: seq<FileEntry>, i: nat)
    requires i < |entries|
    requires forall j :: i < j < |entries| ==> IndexKey(entries[j]) != IndexKey(entries[i])
    ensures FileIndex(entries)[IndexKey(entries[i])] == IndexInfoOf(entries[i])
    decreases |entries|
  {
    var init := entries[..|entries| - 1];
    if i < |entries| - 1 {
      FileIndexLastWins(init, i);
    }
  }

  // ---------------------------------------------------------------------
  // Backfill (:297-303)
  // ---------------------------------------------------------------------

  /** `m.get(key) in (None, "unknown")` */
  predicate Missing(v: Option<Value>) {
    v.None? || v == Some(Unknown)
  }

  predicate MissingSource(s: Option<string>) {
    s.None? || s == Some("unknown")
  }

  /** One record after the merge: `pages`, `place` and `source` are taken
      from the index only where they are missing or "unknown", and only when
      the record's `file_id` (default "unknown") is indexed. */
  function BackfillOne(m: Meta, index: map<string, IndexInfo>): (r: Meta)
    ensures r.(pages := m.pages, place := m.place, source := m.source) == m
    ensures FileIdOrUnknown(m) !in index ==> r == m
    ensures !Missing(m.pages) ==> r.pages == m.pages
    ensures !Missing(m.place) ==> r.place == m.place
    ensures !MissingSource(m.source) ==> r.source == m.source
    ensures FileIdOrUnknown(m) in index ==>
              && (Missing(m.pages) ==> r.pages == Some(index[FileIdOrUnknown(m)].pages))
              && (Missing(m.place) ==> r.place == Some(index[FileIdOrUnknown(m)].place))
              && (MissingSource(m.source) ==> r.source == Some(index[FileIdOrUnknown(m)].source))
  {
    var fid := FileIdOrUnknown(m);
    if fid in index then
      var info := index[fid];
      m.(pages := if Missing(m.pages) then Some(info.pages) else m.pages,
         place := if Missing(m.place) then Some(info.place) else m.place,
         source := if MissingSource(m.source) then Some(info.source) else m.source)
    else m
  }

  function Backfill(metas: seq<Meta>, index: map<string, IndexInfo>): (rs: seq<Meta>)
    ensures |rs| == |metas|
    ensures forall i :: 0 <= i < |metas| ==> rs[i] == BackfillOne(metas[i], index)
  {
    if metas == [] then [] else [BackfillOne(metas[0], index)] + Backfill(metas[1..], index)
  }

  /** Merging twice changes nothing more than merging once. */
  lemma BackfillIdempotent(metas: seq<Meta>, index: map<string, IndexInfo>)
    ensures Backfill(Backfill(metas, index), index) == Backfill(metas, index)
  {
    forall i | 0 <= i < |metas|
      ensures BackfillOne(BackfillOne(metas[i], index), index) == BackfillOne(metas[i], index)
    {
      BackfillOneIdempotent(metas[i], index);
    }
  }

  lemma BackfillOneIdempotent(m: Meta, index: map<string, IndexInfo>)
    ensures BackfillOne(BackfillOne(m, index), index) == BackfillOne(m, index)
  {
    var r := BackfillOne(m, index);
    assert FileIdOrUnknown(r) == FileIdOrUnknown(m);
  }

  // ---------------------------------------------------------------------
  // Grouping (:312-330)
  // ---------------------------------------------------------------------

  /** One chunk inside a group. */
  datatype Item = Item(text: string, chunkIndex: int, page: Value)

  /** One entry of `grouped`: the header fields come from the first record
      seen for the key. */
  datatype Group = Group(key: string, fileId: Option<string>, source: Option<string>,
                         place: Value, pages: Value, items: seq<Item>)

  /** `file_id or source or "unknown-file"` */
  function GroupKey(m: Meta): string {
    if Truthy(m.fileId) then m.fileId.value
    else if Truthy(m.source) then m.source.value
    else "unknown-file"
  }

  /** `chunk_index` defaults to 0 and `page` to "unknown". */
  function ItemOf(c: Chunk): Item {
    Item(c.doc, c.meta.chunkIndex.GetOr(0), c.meta.page.GetOr(Unknown))
  }

  /** The group created by the first chunk of a key, with no items yet. */
  function HeaderOf(c: Chunk): Group {
    Group(GroupKey(c.meta), c.meta.fileId, c.meta.source, c.meta.place.GetOr(Unknown),
          c.meta.pages.GetOr(Unknown), [])
  }

  /** The group key of every chunk, in retrieval order. */
  function GroupKeys(cs: seq<Chunk>): (ks: seq<string>)
    ensures |ks| == |cs|
    decreases |cs|
  {
    if cs == [] then [] else GroupKeys(cs[..|cs| - 1]) + [GroupKey(cs[|cs| - 1].meta)]
  }

  /** The items of the chunks with key `k`, in retrieval order. */
  function ItemsWithKey(cs: seq<Chunk>, k: string): (items: seq<Item>)
    ensures |items| <= |cs|
    decreases |cs|
  {
    if cs == [] then []
    else
      var init := cs[..|cs| - 1];
      var c := cs[|cs| - 1];
      if GroupKey(c.meta) == k then ItemsWithKey(init, k) + [ItemOf(c)] else ItemsWithKey(init, k)
  }

  /** Where the group for `k` sits, if it exists. */
  function FindGroup(gs: seq<Group>, k: string): (r: Option<nat>)
    ensures r.Some? ==> r.value < |gs| && gs[r.value].key == k
    ensures r.None? ==> forall i :: 0 <= i < |gs| ==> gs[i].key != k
  {
    if gs == [] then None
    else if gs[|gs| - 1].key == k then Some(|gs| - 1)
    else FindGroup(gs[..|gs| - 1], k)
  }

  /** One iteration of the grouping loop. */
  function AddChunk(gs: seq<Group>, c: Chunk): seq<Group> {
    match FindGroup(gs, GroupKey(c.meta))
    case Some(i) => gs[i := gs[i].(items := gs[i].items + [ItemOf(c)])]
    case None => gs + [HeaderOf(c).(items := [ItemOf(c)])]
  }

  /** `grouped`, as its values in insertion order. */
  function GroupChunks(cs: seq<Chunk>): seq<Group>
    decreases |cs|
  {
    if cs == [] then [] else AddChunk(GroupChunks(cs[..|cs| - 1]), cs[|cs| - 1])
  }

  function TotalItems(gs: seq<Group>): nat
    decreases |gs|
  {
    if gs == [] then 0 else TotalItems(gs[..|gs| - 1]) + |gs[|gs| - 1].items|
  }

  /** The first chunk carrying key `k`. */
  function FirstWithGroupKey(cs: seq<Chunk>, k: string): Chunk
    requires k in GroupKeys(cs)
  {
    cs[FirstIndex(GroupKeys(cs), k)]
  }

  predicate DistinctKeys(gs: seq<Group>) {
    forall i, j :: 0 <= i < j < |gs| ==> gs[i].key != gs[j].key
  }

  /** Every group's key is the key of some chunk, and groups are in order
      of their key's first appearance. */
  predicate KeysInOrder(cs: seq<Chunk>, gs: seq<Group>) {
    && (forall i :: 0 <= i < |gs| ==> gs[i].key in GroupKeys(cs))
    && (forall i, j :: 0 <= i < j < |gs| ==>
          FirstIndex(GroupKeys(cs), gs[i].key) < FirstIndex(GroupKeys(cs), gs[j].key))
  }

  predicate KeysCover(cs: seq<Chunk>, gs: seq<Group>) {
    forall k :: k in GroupKeys(cs) ==> exists i :: 0 <= i < |gs| && gs[i].key == k
  }

  predicate ItemsMatch(cs: seq<Chunk>, gs: seq<Group>) {
    forall i :: 0 <= i < |gs| ==> gs[i].items == ItemsWithKey(cs, gs[i].key)
  }

  predicate HeadersMatch(cs: seq<Chunk>, gs: seq<Group>)
    requires forall i :: 0 <= i < |gs| ==> gs[i].key in GroupKeys(cs)
  {
    forall i :: 0 <= i < |gs| ==> gs[i].(items := []) == HeaderOf(FirstWithGroupKey(cs, gs[i].key))
  }

  /** What the grouping loop builds: keys are distinct, in order of first
      appearance, and cover every chunk; each group holds exactly the items
      of its key's chunks, in retrieval order, under the header of the first
      of them. */
  predicate GroupSpec(cs: seq<Chunk>, gs: seq<Group>) {
    && DistinctKeys(gs)
    && KeysInOrder(cs, gs)
    && KeysCover(cs, gs)
    && ItemsMatch(cs, gs)
    && HeadersMatch(cs, gs)
  }

  lemma GroupKeysAppend(init: seq<Chunk>, c: Chunk)
    ensures GroupKeys(init + [c]) == GroupKeys(init) + [GroupKey(c.meta)]
  {
    assert (init + [c])[..|init|] == init;
  }

  lemma ItemsWithKeyAppend(init: seq<Chunk>, c: Chunk, k: string)
    ensures ItemsWithKey(init + [c], k)
            == ItemsWithKey(init, k) + (if GroupKey(c.meta) == k then [ItemOf(c)] else [])
  {
    assert (init + [c])[..|init + [c]| - 1] == init;
  }

  lemma {:induction false} ItemsWithKeyAbsent(cs: seq<Chunk>, k: string)
    requires k !in GroupKeys(cs)
    ensures ItemsWithKey(cs, k) == []
    decreases |cs|
  {
    if cs != [] {
      var init := cs[..|cs| - 1];
      assert init + [cs[|cs| - 1]] == cs;
      GroupKeysAppend(init, cs[|cs| - 1]);
      ItemsWithKeyAbsent(init, k);
    }
  }

  lemma FirstWithGroupKeyPrefix(init: seq<Chunk>, c: Chunk, k: string)
    requires k in GroupKeys(init)
    ensures k in GroupKeys(init + [c])
    ensures FirstIndex(GroupKeys(init + [c]), k) == FirstIndex(GroupKeys(init), k)
    ensures FirstWithGroupKey(init + [c], k) == FirstWithGroupKey(init, k)
  {
    GroupKeysAppend(init, c);
    FirstIndexPrefix(GroupKeys(init), [GroupKey(c.meta)], k);
    var j := FirstIndex(GroupKeys(init), k);
    assert (init + [c])[j] == init[j];
  }

  lemma FirstWithNewGroupKey(init: seq<Chunk>, c: Chunk)
    requires GroupKey(c.meta) !in GroupKeys(init)
    ensures GroupKey(c.meta) in GroupKeys(init + [c])
    ensures FirstIndex(GroupKeys(init + [c]), GroupKey(c.meta)) == |init|
    ensures FirstWithGroupKey(init + [c], GroupKey(c.meta)) == c
  {
    GroupKeysAppend(init, c);
    var ks := GroupKeys(init + [c]);
    assert ks[|init|] == GroupKey(c.meta);
    FirstIndexAt(ks, GroupKey(c.meta), |init|);
  }

  /** What appending a chunk leaves unchanged about the keys already seen. */
  lemma OldKeysKept(init: seq<Chunk>, c: Chunk, gs: seq<Group>)
    requires KeysInOrder(init, gs)
    ensures forall j :: 0 <= j < |gs| ==>
              && gs[j].key in GroupKeys(init + [c])
              && FirstIndex(GroupKeys(init + [c]), gs[j].key) == FirstIndex(GroupKeys(init), gs[j].key) < |init|
              && FirstWithGroupKey(init + [c], gs[j].key) == FirstWithGroupKey(init, gs[j].key)
  {
    forall j | 0 <= j < |gs|
      ensures gs[j].key in GroupKeys(init + [c])
      ensures FirstIndex(GroupKeys(init + [c]), gs[j].key) == FirstIndex(GroupKeys(init), gs[j].key) < |init|
      ensures FirstWithGroupKey(init + [c], gs[j].key) == FirstWithGroupKey(init, gs[j].key)
    {
      FirstWithGroupKeyPrefix(init, c, gs[j].key);
    }
  }

  lemma StepExistingKeys(init: seq<Chunk>, c: Chunk, gs: seq<Group>, i: nat)
    requires DistinctKeys(gs) && KeysInOrder(init, gs) && KeysCover(init, gs)
    requires i < |gs| && gs[i].key == GroupKey(c.meta)
    ensures var gs' := gs[i := gs[i].(items := gs[i].items + [ItemOf(c)])];
            DistinctKeys(gs') && KeysInOrder(init + [c], gs') && KeysCover(init + [c], gs')
  {
    var cs := init + [c];
    var gs' := gs[i := gs[i].(items := gs[i].items + [ItemOf(c)])];
    GroupKeysAppend(init, c);
    OldKeysKept(init, c, gs);
    assert forall j :: 0 <= j < |gs| ==> gs'[j].key == gs[j].key;
    assert KeysCover(cs, gs') by {
      forall k | k in GroupKeys(cs) ensures exists j :: 0 <= j < |gs'| && gs'[j].key == k {
        if k == GroupKey(c.meta) {
          assert gs'[i].key == k;
        } else {
          assert k in GroupKeys(init);
          var j :| 0 <= j < |gs| && gs[j].key == k;
          assert gs'[j].key == k;
        }
      }
    }
  }

  lemma StepExistingItems(init: seq<Chunk>, c: Chunk, gs: seq<Group>, i: nat)
    requires KeysInOrder(init, gs) && ItemsMatch(init, gs) && HeadersMatch(init, gs)
    requires i < |gs| && gs[i].key == GroupKey(c.meta)
    ensures var gs' := gs[i := gs[i].(items := gs[i].items + [ItemOf(c)])];
            && (forall j :: 0 <= j < |gs'| ==> gs'[j].key in GroupKeys(init + [c]))
            && ItemsMatch(init + [c], gs') && HeadersMatch(init + [c], gs')
  {
    var cs := init + [c];
    var gs' := gs[i := gs[i].(items := gs[i].items + [ItemOf(c)])];
    OldKeysKept(init, c, gs);
    forall j | 0 <= j < |gs|
      ensures gs'[j].items == ItemsWithKey(cs, gs'[j].key)
      ensures gs'[j].(items := []) == HeaderOf(FirstWithGroupKey(cs, gs'[j].key))
    {
      ItemsWithKeyAppend(init, c, gs[j].key);
      assert gs'[j].(items := []) == gs[j].(items := []);
    }
  }

  lemma StepExisting(init: seq<Chunk>, c: Chunk, gs: seq<Group>, i: nat)
    requires GroupSpec(init, gs)
    requires i < |gs| && gs[i].key == GroupKey(c.meta)
    ensures GroupSpec(init + [c], gs[i := gs[i].(items := gs[i].items + [ItemOf(c)])])
  {
    StepExistingKeys(init, c, gs, i);
    StepExistingItems(init, c, gs, i);
  }

  lemma StepNewKeys(init: seq<Chunk>, c: Chunk, gs: seq<Group>)
    requires DistinctKeys(gs) && KeysInOrder(init, gs) && KeysCover(init, gs)
    requires forall i :: 0 <= i < |gs| ==> gs[i].key != GroupKey(c.meta)
    ensures var gs' := gs + [HeaderOf(c).(items := [ItemOf(c)])];
            DistinctKeys(gs') && KeysInOrder(init + [c], gs') && KeysCover(init + [c], gs')
  {
    var cs := init + [c];
    var k := GroupKey(c.meta);
    var gs' := gs + [HeaderOf(c).(items := [ItemOf(c)])];
    GroupKeysAppend(init, c);
    OldKeysKept(init, c, gs);
    FirstWithNewGroupKey(init, c);
    assert gs'[|gs|].key == k;
    forall i, j | 0 <= i < j < |gs'|
      ensures gs'[i].key != gs'[j].key
      ensures FirstIndex(GroupKeys(cs), gs'[i].key) < FirstIndex(GroupKeys(cs), gs'[j].key)
    {
      assert gs'[i] == gs[i];
      if j < |gs| {
        assert gs'[j] == gs[j];
      }
    }
    forall i | 0 <= i < |gs'| ensures gs'[i].key in GroupKeys(cs) {
      if i < |gs| {
        assert gs'[i] == gs[i];
      }
    }
    assert KeysCover(cs, gs') by {
      forall k' | k' in GroupKeys(cs) ensures exists j :: 0 <= j < |gs'| && gs'[j].key == k' {
        if k' != k {
          assert k' in GroupKeys(init);
          var j :| 0 <= j < |gs| && gs[j].key == k';
          assert gs'[j] == gs[j];
        }
      }
    }
  }

  lemma StepNewItems(init: seq<Chunk>, c: Chunk, gs: seq<Group>)
    requires KeysInOrder(init, gs) && KeysCover(init, gs) && ItemsMatch(init, gs) && HeadersMatch(init, gs)
    requires forall i :: 0 <= i < |gs| ==> gs[i].key != GroupKey(c.meta)
    ensures var gs' := gs + [HeaderOf(c).(items := [ItemOf(c)])];
            && (forall j :: 0 <= j < |gs'| ==> gs'[j].key in GroupKeys(init + [c]))
            && ItemsMatch(init + [c], gs') && HeadersMatch(init + [c], gs')
  {
    var cs := init + [c];
    var k := GroupKey(c.meta);
    var gs' := gs + [HeaderOf(c).(items := [ItemOf(c)])];
    GroupKeysAppend(init, c);
    OldKeysKept(init, c, gs);
    FirstWithNewGroupKey(init, c);
    ItemsWithKeyAbsent(init, k);
    ItemsWithKeyAppend(init, c, k);
    forall j | 0 <= j < |gs'|
      ensures gs'[j].items == ItemsWithKey(cs, gs'[j].key)
      ensures gs'[j].(items := []) == HeaderOf(FirstWithGroupKey(cs, gs'[j].key))
    {
      if j < |gs| {
        assert gs'[j] == gs[j];
        ItemsWithKeyAppend(init, c, gs[j].key);
      } else {
        assert gs'[j] == HeaderOf(c).(items := [ItemOf(c)]);
      }
    }
  }

  lemma StepNew(init: seq<Chunk>, c: Chunk, gs: seq<Group>)
    requires GroupSpec(init, gs)
    requires forall i :: 0 <= i < |gs| ==> gs[i].key != GroupKey(c.meta)
    ensures GroupSpec(init + [c], gs + [HeaderOf(c).(items := [ItemOf(c)])])
  {
    StepNewKeys(init, c, gs);
    StepNewItems(init, c, gs);
  }

  /** The grouping loop meets its specification. */
  lemma {:induction false} GroupChunksSpec(cs: seq<Chunk>)
    ensures GroupSpec(cs, GroupChunks(cs))
    decreases |cs|
  {
    if cs != [] {
      var init := cs[..|cs| - 1];
      var c := cs[|cs| - 1];
      assert init + [c] == cs;
      GroupChunksSpec(init);
      var gs := GroupChunks(init);
      match FindGroup(gs, GroupKey(c.meta))
      case Some(i) => StepExisting(init, c, gs, i);
      case None => StepNew(init, c, gs);
    }
  }

  lemma {:induction false} TotalItemsUpdate(gs: seq<Group>, i: nat, g: Group)
    requires i < |gs|
    ensures TotalItems(gs[i := g]) + |gs[i].items| == TotalItems(gs) + |g.items|
    decreases |gs|
  {
    var gs' := gs[i := g];
    assert gs'[..|gs'| - 1] == if i < |gs| - 1 then gs[..|gs| - 1][i := g] else gs[..|gs| - 1];
    if i < |gs| - 1 {
      TotalItemsUpdate(gs[..|gs| - 1], i, g);
    }
  }

  lemma TotalItemsAppend(gs: seq<Group>, g: Group)
    ensures TotalItems(gs + [g]) == TotalItems(gs) + |g.items|
  {
    assert (gs + [g])[..|gs|] == gs;
  }

  /** Grouping loses and duplicates nothing: there are as many items as
      retrieved chunks. */
  lemma {:induction false} GroupChunksLossless(cs: seq<Chunk>)
    ensures TotalItems(GroupChunks(cs)) == |cs|
    decreases |cs|
  {
    if cs != [] {
      var init := cs[..|cs| - 1];
      var c := cs[|cs| - 1];
      GroupChunksLossless(init);
      var gs := GroupChunks(init);
      match FindGroup(gs, GroupKey(c.meta))
      case Some(i) => TotalItemsUpdate(gs, i, gs[i].(items := gs[i].items + [ItemOf(c)]));
      case None => TotalItemsAppend(gs, HeaderOf(c).(items := [ItemOf(c)]));
    }
  }

  // ---------------------------------------------------------------------
  // Sorting a group's chunks (:333-335)
  // ---------------------------------------------------------------------

  /** Ordered by `chunk_index`: the sort key `(chunk_index, chunk_index)`
      orders exactly as `chunk_index` does. */
  predicate SortedByIndex(items: seq<Item>) {
    forall i, j :: 0 <= i < j < |items| ==> items[i].chunkIndex <= items[j].chunkIndex
  }

  /** The items with chunk index `c`, in their original order. */
  function WithIndex(items: seq<Item>, c: int): seq<Item>
    decreases |items|
  {
    if items == [] then []
    else
      var last := items[|items| - 1];
      WithIndex(items[..|items| - 1], c) + (if last.chunkIndex == c then [last] else [])
  }

  /** Place `x` after every item whose index is not greater than its own,
      which keeps equal indices in arrival order. */
  function Insert(x: Item, sorted: seq<Item>): (r: seq<Item>)
    ensures |r| == |sorted| + 1
    ensures multiset(r) == multiset(sorted) + multiset{x}
    decreases |sorted|
  {
    if sorted == [] then [x]
    else
      var init := sorted[..|sorted| - 1];
      var last := sorted[|sorted| - 1];
      assert sorted == init + [last];
      if last.chunkIndex <= x.chunkIndex then sorted + [x] else Insert(x, init) + [last]
  }

  /** `list.sort` with the chunk-index key: a stable sort. */
  function SortItems(items: seq<Item>): (r: seq<Item>)
    ensures |r| == |items|
    ensures multiset(r) == multiset(items)
    decreases |items|
  {
    if items == [] then []
    else
      var init := items[..|items| - 1];
      assert items == init + [items[|items| - 1]];
      Insert(items[|items| - 1], SortItems(init))
  }

  lemma {:induction false} InsertSorted(x: Item, sorted: seq<Item>)
    requires SortedByIndex(sorted)
    ensures SortedByIndex(Insert(x, sorted))
    decreases |sorted|
  {
    if sorted != [] {
      var init := sorted[..|sorted| - 1];
      var last := sorted[|sorted| - 1];
      var r := Insert(x, sorted);
      if last.chunkIndex <= x.chunkIndex {
        assert r == sorted + [x];
      } else {
        InsertSorted(x, init);
        var ri := Insert(x, init);
        assert r == ri + [last];
        forall k | 0 <= k < |ri| ensures ri[k].chunkIndex <= last.chunkIndex {
          assert ri[k] in multiset(ri);
          assert ri[k] in multiset(init) || ri[k] == x;
          if ri[k] != x {
            var j :| 0 <= j < |init| && init[j] == ri[k];
            assert sorted[j] == init[j];
          }
        }
      }
    }
  }

  lemma WithIndexAppend(items: seq<Item>, x: Item, c: int)
    ensures WithIndex(items + [x], c) == WithIndex(items, c) + (if x.chunkIndex == c then [x] else [])
  {
    assert (items + [x])[..|items|] == items;
  }

  /** Inserting `x` adds it behind the items that share its index and
      leaves every other index's items as they were. */
  lemma {:induction false} InsertWithIndex(x: Item, sorted: seq<Item>, c: int)
    ensures WithIndex(Insert(x, sorted), c) == WithIndex(sorted, c) + (if x.chunkIndex == c then [x] else [])
    decreases |sorted|
  {
    if sorted == [] {
      WithIndexAppend([], x, c);
    } else {
      var init := sorted[..|sorted| - 1];
      var last := sorted[|sorted| - 1];
      assert sorted == init + [last];
      if last.chunkIndex <= x.chunkIndex {
        WithIndexAppend(sorted, x, c);
      } else {
        InsertWithIndex(x, init, c);
        WithIndexAppend(Insert(x, init), last, c);
        WithIndexAppend(init, last, c);
      }
    }
  }

  /** The sort orders the items by index, keeps each index's items in their
      original order, and keeps every item. */
  lemma {:induction false} SortItemsSpec(items: seq<Item>)
    ensures SortedByIndex(SortItems(items))
    ensures forall c :: WithIndex(SortItems(items), c) == WithIndex(items, c)
    decreases |items|
  {
    if items != [] {
      var init := items[..|items| - 1];
      var x := items[|items| - 1];
      assert items == init + [x];
      SortItemsSpec(init);
      InsertSorted(x, SortItems(init));
      forall c ensures WithIndex(SortItems(items), c) == WithIndex(items, c) {
        InsertWithIndex(x, SortItems(init), c);
        WithIndexAppend(init, x, c);
      }
    }
  }

  /** Items already in index order are left exactly as they are. */
  lemma {:induction false} SortSortedIdentity(items: seq<Item>)
    requires SortedByIndex(items)
    ensures SortItems(items) == items
    decreases |items|
  {
    if items != [] {
      SortedInit(items);
      SortSortedIdentity(items[..|items| - 1]);
      SortedLastPair(items);
      SortStep(items);
    }
  }

  /** Appending an item whose index is not below the last one to a list the
      sort leaves alone gives a list the sort leaves alone. */
  lemma SortStep(items: seq<Item>)
    requires items != []
    requires SortItems(items[..|items| - 1]) == items[..|items| - 1]
    requires var init := items[..|items| - 1];
             init == [] || init[|init| - 1].chunkIndex <= items[|items| - 1].chunkIndex
    ensures SortItems(items) == items
  {
    var init := items[..|items| - 1];
    var x := items[|items| - 1];
    SortItemsLast(items);
    InsertAtEnd(x, init);
    assert init + [x] == items;
  }

  lemma SortItemsLast(items: seq<Item>)
    requires items != []
    ensures SortItems(items) == Insert(items[|items| - 1], SortItems(items[..|items| - 1]))
  {
  }

  lemma SortedLastPair(items: seq<Item>)
    requires SortedByIndex(items) && items != []
    ensures var init := items[..|items| - 1];
            init == [] || init[|init| - 1].chunkIndex <= items[|items| - 1].chunkIndex
  {
    if |items| >= 2 {
      assert items[..|items| - 1][|items| - 2] == items[|items| - 2];
    }
  }

  /** An item whose index is not below the last one goes at the end. */
  lemma InsertAtEnd(x: Item, sorted: seq<Item>)
    requires sorted == [] || sorted[|sorted| - 1].chunkIndex <= x.chunkIndex
    ensures Insert(x, sorted) == sorted + [x]
  {
  }

  lemma SortedInit(items: seq<Item>)
    requires SortedByIndex(items) && items != []
    ensures SortedByIndex(items[..|items| - 1])
  {
    var init := items[..|items| - 1];
    forall i, j | 0 <= i < j < |init|
      ensures init[i].chunkIndex <= init[j].chunkIndex
    {
      assert init[i] == items[i] && init[j] == items[j];
    }
  }

  /** Every group with its chunks sorted. */
  function SortGroups(gs: seq<Group>): (r: seq<Group>)
    ensures |r| == |gs|
  {
    seq(|gs|, i requires 0 <= i < |gs| => gs[i].(items := SortItems(gs[i].items)))
  }

  lemma {:induction false} GroupKeysAt(cs: seq<Chunk>, i: nat)
    requires i < |cs|
    ensures GroupKeys(cs)[i] == GroupKey(cs[i].meta)
    decreases |cs|
  {
    if i < |cs| - 1 {
      GroupKeysAt(cs[..|cs| - 1], i);
    }
  }

  lemma {:induction false} ItemsWithKeyHas(cs: seq<Chunk>, i: nat)
    requires i < |cs|
    ensures ItemOf(cs[i]) in ItemsWithKey(cs, GroupKey(cs[i].meta))
    decreases |cs|
  {
    var init := cs[..|cs| - 1];
    if i < |cs| - 1 {
      ItemsWithKeyHas(init, i);
      assert init[i] == cs[i];
    }
  }

  /** The group a chunk's key leads to holds that chunk. */
  lemma GroupOfChunk(cs: seq<Chunk>, i: nat) returns (j: nat)
    requires i < |cs|
    ensures j < |GroupChunks(cs)| && ItemOf(cs[i]) in GroupChunks(cs)[j].items
  {
    var gs := GroupChunks(cs);
    var key := GroupKey(cs[i].meta);
    GroupChunksSpec(cs);
    assert KeysCover(cs, gs) && ItemsMatch(cs, gs);
    GroupKeysAt(cs, i);
    assert key in GroupKeys(cs);
    j :| 0 <= j < |gs| && gs[j].key == key;
    ItemsWithKeyHas(cs, i);
  }

  /** Every retrieved chunk ends up as an item of some sorted group. */
  lemma ChunkInSomeGroup(cs: seq<Chunk>, i: nat)
    requires i < |cs|
    ensures exists j, k :: 0 <= j < |SortGroups(GroupChunks(cs))| && 0 <= k < |SortGroups(GroupChunks(cs))[j].items|
                           && SortGroups(GroupChunks(cs))[j].items[k] == ItemOf(cs[i])
  {
    var j := GroupOfChunk(cs, i);
    var g := GroupChunks(cs)[j];
    var sorted := SortGroups(GroupChunks(cs))[j].items;
    assert sorted == SortItems(g.items);
    assert multiset(sorted) == multiset(g.items);
    var x := ItemOf(cs[i]);
    assert x in multiset(g.items);
    assert x in multiset(sorted);
    var k :| 0 <= k < |sorted| && sorted[k] == x;
  }
}
