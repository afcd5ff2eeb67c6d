/**
 * The prompt material `ask_question` assembles from the grouped chunks: the
 * context string (a header per file, one block per chunk), the size guard
 * that drops it for listing questions, and the per-file sorted page lists
 * built from the source links (app/routes/ask_question.py).
 */
module Context {
  import opened Util
  import opened Patterns
  import opened Metadata
  import opened Retrieval

  // ---------------------------------------------------------------------
  // The context string (:337-371)
  // ---------------------------------------------------------------------

  /** The page of a group's first chunk, or "unknown" for a group with no
      chunks. */
  function RepresentativePage(g: Group): Value {
    if |g.items| > 0 then g.items[0].page else Unknown
  }

  /** The `=== key ===` banner that opens and closes a header. */
  function Banner(key: string): string {
    "=== " + key + " ===\n"
  }

  /** The file's fields between the two banners. */
  function HeaderFields(g: Group): string {
    "\nFilename: " + OptText(g.source)
    + "\nFile ID: " + OptText(g.fileId)
    + "\nPlace: " + ValueText(g.place)
    + "\nPage: " + ValueText(RepresentativePage(g))
    + "\nTotal Pages: " + ValueText(g.pages)
    + "\n"
  }

  function Header(g: Group): string {
    Banner(g.key) + HeaderFields(g) + Banner(g.key)
  }

  /** The line announcing a chunk: its file, page, the file's page count and
      its place. */
  function Marker(g: Group, it: Item): string {
    "\n--- FILE: " + OptText(g.source) + " | PAGE: " + ValueText(it.page)
    + " of " + ValueText(g.pages) + " | PLACE: " + ValueText(g.place) + " ---\n\n"
  }

  function ChunkBlock(g: Group, it: Item): string {
    Marker(g, it) + it.text
  }

  function ChunkBlocks(g: Group): (bs: seq<string>)
    ensures |bs| == |g.items|
    ensures forall k :: 0 <= k < |g.items| ==> bs[k] == ChunkBlock(g, g.items[k])
  {
    seq(|g.items|, k requires 0 <= k < |g.items| => ChunkBlock(g, g.items[k]))
  }

  /** One file's part: its header, then its chunk blocks joined by a blank
      line. */
  function FilePart(g: Group): string {
    Header(g) + Join(ChunkBlocks(g), "\n\n")
  }

  function FileParts(gs: seq<Group>): (ps: seq<string>)
    ensures |ps| == |gs|
    ensures forall i :: 0 <= i < |gs| ==> ps[i] == FilePart(gs[i])
  {
    seq(|gs|, i requires 0 <= i < |gs| => FilePart(gs[i]))
  }

  /** The whole context: the file parts separated by two blank lines. */
  function BuildContext(gs: seq<Group>): string {
    Join(FileParts(gs), "\n\n\n")
  }

  lemma InfixOfSuffix(a: string, s: string)
    ensures IsInfix(a, s + a)
  {
    InfixSelf(a);
    InfixOfConcat(a, s, a);
  }

  /** Every retrieved chunk's text reaches the model: it occurs in the
      context, inside its file's part. */
  lemma ContextContainsChunk(gs: seq<Group>, i: nat, k: nat)
    requires i < |gs| && k < |gs[i].items|
    ensures IsInfix(gs[i].items[k].text, BuildContext(gs))
  {
    var g := gs[i];
    var it := g.items[k];
    InfixOfSuffix(it.text, Marker(g, it));
    JoinContainsPart(ChunkBlocks(g), "\n\n", k);
    InfixTrans(it.text, ChunkBlock(g, it), Join(ChunkBlocks(g), "\n\n"));
    InfixOfSuffix(Join(ChunkBlocks(g), "\n\n"), Header(g));
    InfixTrans(it.text, Join(ChunkBlocks(g), "\n\n"), FilePart(g));
    JoinContainsPart(FileParts(gs), "\n\n\n", i);
    InfixTrans(it.text, FilePart(g), BuildContext(gs));
  }

  /** Every file's header reaches the model, with its banner. */
  lemma ContextContainsHeader(gs: seq<Group>, i: nat)
    requires i < |gs|
    ensures IsInfix(Header(gs[i]), BuildContext(gs))
    ensures IsInfix(Banner(gs[i].key), BuildContext(gs))
  {
    var g := gs[i];
    InfixSelf(Header(g));
    InfixOfConcat(Header(g), Header(g), Join(ChunkBlocks(g), "\n\n"));
    JoinContainsPart(FileParts(gs), "\n\n\n", i);
    InfixTrans(Header(g), FilePart(g), BuildContext(gs));
    InfixSelf(Banner(g.key));
    InfixOfConcat(Banner(g.key), Banner(g.key), HeaderFields(g));
    InfixOfConcat(Banner(g.key), Banner(g.key) + HeaderFields(g), Banner(g.key));
    InfixTrans(Banner(g.key), Header(g), BuildContext(gs));
  }

  // ---------------------------------------------------------------------
  // The listing guard (:414-416)
  // ---------------------------------------------------------------------

  const ContextLimit := 10000
  const ListingWords: seq<string> := ["list", "show", "man", "many"]
  const SkippedContext := "(context skipped — file listing not content-based)"
  const NoSystemMessage := "( no system message needed )"

  /** A context over the limit is replaced, together with the system
      message, when the question asks to list, show or count. */
  function Guard(context: string, system: string, query: string): (r: (string, string))
    ensures |r.0| <= |context|
    ensures |context| <= ContextLimit ==> r == (context, system)
    ensures |context| > ContextLimit ==>
              (r == (SkippedContext, NoSystemMessage) <==> SearchWords(query, ListingWords))
    ensures r == (context, system) || r == (SkippedContext, NoSystemMessage)
  {
    if |context| > ContextLimit && SearchWords(query, ListingWords) then
      (SkippedContext, NoSystemMessage)
    else (context, system)
  }

  // ---------------------------------------------------------------------
  // Per-file page lists (:524-530)
  // ---------------------------------------------------------------------

  /** `int(page)`: integers as they are, strings parsed; None is the
      `ValueError` branch. */
  function PageNumber(v: Value): (r: Option<int>)
    ensures v.VInt? ==> r == Some(v.i)
    ensures v.VStr? ==> r == ParseInt(v.s)
  {
    match v
    case VInt(i) => Some(i)
    case VStr(s) => ParseInt(s)
  }

  predicate StrictlyIncreasing(xs: seq<int>) {
    forall i, j :: 0 <= i < j < |xs| ==> xs[i] < xs[j]
  }

  /** Insert `x` into a strictly increasing list unless it is already there. */
  function InsertUnique(x: int, xs: seq<int>): (r: seq<int>)
    requires StrictlyIncreasing(xs)
    ensures StrictlyIncreasing(r)
    ensures forall y :: y in r <==> y == x || y in xs
    decreases |xs|
  {
    if xs == [] then [x]
    else if x < xs[0] then [x] + xs
    else if x == xs[0] then xs
    else
      var rest := InsertUnique(x, xs[1..]);
      assert forall y :: y in xs <==> y == xs[0] || y in xs[1..];
      forall k | 0 <= k < |rest| ensures xs[0] < rest[k] {
        assert rest[k] in rest;
      }
      [xs[0]] + rest
  }

  /** `sorted(set(xs))` */
  function SortedSet(xs: seq<int>): (r: seq<int>)
    ensures StrictlyIncreasing(r)
    ensures forall y :: y in r <==> y in xs
    decreases |xs|
  {
    if xs == [] then []
    else
      var init := xs[..|xs| - 1];
      assert xs == init + [xs[|xs| - 1]];
      InsertUnique(xs[|xs| - 1], SortedSet(init))
  }

  /** A strictly increasing list is determined by its elements, so
      `sorted(set(xs))` is the only list with both properties. */
  lemma SameElementsEmpty(a: seq<int>, b: seq<int>)
    requires forall y :: y in a <==> y in b
    ensures a == [] <==> b == []
  {
    if a != [] {
      var x := a[0];
      assert x in a;
      assert x in b;
    }
    if b != [] {
      var x := b[0];
      assert x in b;
      assert x in a;
    }
  }

  lemma {:induction false} IncreasingUnique(a: seq<int>, b: seq<int>)
    requires StrictlyIncreasing(a) && StrictlyIncreasing(b)
    requires forall y :: y in a <==> y in b
    ensures a == b
    decreases |a|
  {
    SameElementsEmpty(a, b);
    if a != [] {
      assert a[0] == b[0] by {
        var x, z := a[0], b[0];
        assert x in a && z in b;
        assert x in b && z in a;
      }
      forall y ensures y in a[1..] <==> y in b[1..] {
        if y in a[1..] {
          assert y in b && y > a[0];
        }
        if y in b[1..] {
          assert y in a && y > b[0];
        }
      }
      IncreasingUnique(a[1..], b[1..]);
      assert a == [a[0]] + a[1..] && b == [b[0]] + b[1..];
    }
  }

  /** One file's line of the sources block. */
  datatype PageList = PageList(filename: string, pages: seq<int>)

  function LinkNames(links: seq<SourceLink>): (ns: seq<string>)
    ensures |ns| == |links|
    ensures forall i :: 0 <= i < |links| ==> ns[i] == links[i].filename
  {
    Map(links, (l: SourceLink) => l.filename)
  }

  /** The page number of every link, or None when one fails to parse. */
  function LinkPages(links: seq<SourceLink>): (r: Option<seq<int>>)
    ensures r.Some? <==> forall i :: 0 <= i < |links| ==> PageNumber(links[i].page).Some?
    ensures r.Some? ==> |r.value| == |links|
    ensures r.Some? ==> forall i :: 0 <= i < |links| ==> PageNumber(links[i].page) == Some(r.value[i])
  {
    if forall i :: 0 <= i < |links| ==> PageNumber(links[i].page).Some? then
      Some(seq(|links|, i requires 0 <= i < |links| => PageNumber(links[i].page).value))
    else None
  }

  /** The page numbers of the links to file `f`, in link order. */
  function PagesFor(links: seq<SourceLink>, nums: seq<int>, f: string): (ps: seq<int>)
    requires |nums| == |links|
    ensures forall y :: y in ps <==> exists i :: 0 <= i < |links| && links[i].filename == f && nums[i] == y
    decreases |links|
  {
    if links == [] then []
    else
      var rest := PagesFor(links[1..], nums[1..], f);
      assert forall i :: 1 <= i < |links| ==> links[i] == links[1..][i - 1] && nums[i] == nums[1..][i - 1];
      if links[0].filename == f then [nums[0]] + rest else rest
  }

  /** The `grouped_sources` dictionary after sorting: one list per file in
      order of first appearance, each strictly increasing and holding
      exactly that file's page numbers. A page that is not a number makes
      `int()` raise. */
  function PageLists(links: seq<SourceLink>): (r: Result<seq<PageList>, string>)
    ensures r.Err? <==> exists i :: 0 <= i < |links| && PageNumber(links[i].page).None?
    ensures r.Ok? ==> |r.value| == |Dedup(LinkNames(links))|
    ensures r.Ok? ==> forall k :: 0 <= k < |r.value| ==>
              && r.value[k].filename == Dedup(LinkNames(links))[k]
              && StrictlyIncreasing(r.value[k].pages)
              && forall y :: y in r.value[k].pages <==>
                   exists i :: 0 <= i < |links| && links[i].filename == r.value[k].filename
                               && PageNumber(links[i].page) == Some(y)
  {
    match LinkPages(links)
    case None => Err("ValueError")
    case Some(nums) =>
      var names := Dedup(LinkNames(links));
      Ok(seq(|names|, k requires 0 <= k < |names| => PageList(names[k], SortedSet(PagesFor(links, nums, names[k])))))
  }
}
