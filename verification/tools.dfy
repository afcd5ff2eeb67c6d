/**
 * The functions `ask_question` offers the chat model and the two-round
 * tool-call protocol (app/routes/ask_question.py): the fuzzy filename
 * matcher, the text of each tool reply, the dispatch of the model's tool
 * calls, and the choice of the final answer. The similarity search and the
 * model's replies are parameters.
 */
module Tools {
  import opened Util
  import opened Metadata

  // ---------------------------------------------------------------------
  // The difflib oracle
  // ---------------------------------------------------------------------

  /** `get_close_matches(word, candidates, n, cutoff)`, the cutoff fixed by
      the caller. */
  type Matcher = (string, seq<string>, nat) -> seq<string>

  /** What the similarity search guarantees: at most `n` results, each one
      of the candidates, none repeated. */
  predicate ValidMatches(ms: seq<string>, candidates: seq<string>, n: nat) {
    && |ms| <= n
    && (forall i :: 0 <= i < |ms| ==> ms[i] in candidates)
    && NoDuplicates(ms)
  }

  /** A similarity search that keeps its guarantee on every input. */
  ghost predicate ValidMatcher(m: Matcher) {
    forall w, cs, n :: ValidMatches(m(w, cs, n), cs, n)
  }

  // ---------------------------------------------------------------------
  // find_best_file_match_func (:37-51)
  // ---------------------------------------------------------------------

  /** The listed filenames that are truthy, in listing order. */
  function ListedNames(entries: seq<FileEntry>): (fns: seq<string>)
    ensures forall f :: f in fns <==> f != "" && exists e :: e in entries && e.filename == f
    decreases |entries|
  {
    if entries == [] then []
    else
      var rest := ListedNames(entries[1..]);
      assert forall e :: e in entries <==> e == entries[0] || e in entries[1..];
      if entries[0].filename != "" then [entries[0].filename] + rest else rest
  }

  function LowerAll(fns: seq<string>): (ls: seq<string>)
    ensures |ls| == |fns|
    ensures forall i :: 0 <= i < |fns| ==> ls[i] == Lower(fns[i])
  {
    seq(|fns|, i requires 0 <= i < |fns| => Lower(fns[i]))
  }

  /** `lc_map[k]` for `lc_map = {fn.lower(): fn for fn in fns}`: the last
      name whose lower-case form is `k`. */
  function LastWithLower(fns: seq<string>, k: string): (f: string)
    requires k in LowerAll(fns)
    ensures f in fns && Lower(f) == k
    ensures LastAmong(fns, k, f)
    decreases |fns|
  {
    var init := fns[..|fns| - 1];
    var last := fns[|fns| - 1];
    if Lower(last) == k then last
    else
      assert forall i :: 0 <= i < |init| ==> LowerAll(init)[i] == LowerAll(fns)[i];
      var f := LastWithLower(init, k);
      LastAmongExtend(init, last, k, f);
      assert init + [last] == fns;
      f
  }

  /** `f` is listed at a position after which no listed name folds to `k`. */
  predicate LastAmong(fns: seq<string>, k: string, f: string) {
    exists i :: 0 <= i < |fns| && fns[i] == f && forall j :: i < j < |fns| ==> Lower(fns[j]) != k
  }

  lemma LastAmongExtend(init: seq<string>, last: string, k: string, f: string)
    requires LastAmong(init, k, f) && Lower(last) != k
    ensures LastAmong(init + [last], k, f)
  {
    var i :| 0 <= i < |init| && init[i] == f && forall j :: i < j < |init| ==> Lower(init[j]) != k;
    var fns := init + [last];
    assert fns[i] == f;
    forall j | i < j < |fns|
      ensures Lower(fns[j]) != k
    {
      if j < |init| { assert fns[j] == init[j]; }
    }
  }

  /** The case-folded candidates: the keys of `lc_map`, in insertion order. */
  function Candidates(fns: seq<string>): (ks: seq<string>)
    ensures forall k :: k in ks <==> k in LowerAll(fns)
    ensures NoDuplicates(ks)
  {
    Dedup(LowerAll(fns))
  }

  /** Up to three listed filenames close to `query`, compared in lower case
      and returned in their original case. */
  function FindBestFileMatch(entries: seq<FileEntry>, query: string, closeMatches: Matcher)
    : (r: seq<string>)
    requires ValidMatcher(closeMatches)
    ensures ListedNames(entries) == [] ==> r == []
    ensures |r| <= 3
    ensures forall i :: 0 <= i < |r| ==> r[i] != "" && exists e :: e in entries && e.filename == r[i]
    ensures ListedNames(entries) != [] ==>
              var ms := closeMatches(Lower(query), Candidates(ListedNames(entries)), 3);
              |r| == |ms| && forall i :: 0 <= i < |r| ==> Lower(r[i]) == ms[i]
    ensures forall i :: 0 <= i < |r| ==> LastAmong(ListedNames(entries), Lower(r[i]), r[i])
  {
    var fns := ListedNames(entries);
    if fns == [] then []
    else
      var ks := Candidates(fns);
      var ms := closeMatches(Lower(query), ks, 3);
      assert ValidMatches(ms, ks, 3);
      seq(|ms|, i requires 0 <= i < |ms| => LastWithLower(fns, ms[i]))
  }

  /** A match on a name that no other listed name folds to returns that
      name exactly as listed. */
  lemma {:induction false} LastWithLowerUnique(fns: seq<string>, f: string)
    requires f in fns
    requires forall g :: g in fns && Lower(g) == Lower(f) ==> g == f
    ensures Lower(f) in LowerAll(fns)
    ensures LastWithLower(fns, Lower(f)) == f
  {
    var i :| 0 <= i < |fns| && fns[i] == f;
    assert LowerAll(fns)[i] == Lower(f);
  }

  /** Two names that fold alike: the later one is the one returned. */
  lemma LastWithLowerTie()
    ensures "a.pdf" in LowerAll(["A.pdf", "a.pdf"])
    ensures LastWithLower(["A.pdf", "a.pdf"], "a.pdf") == "a.pdf"
  {
    assert Lower("a.pdf") == "a.pdf";
    assert LowerAll(["A.pdf", "a.pdf"])[1] == "a.pdf";
  }

  // ---------------------------------------------------------------------
  // Tool replies (:457-498)
  // ---------------------------------------------------------------------

  /** One line of the `list_files` tool reply. */
  function ListingLine(e: FileEntry): string {
    "- " + e.filename + " — Total Pages: " + ValueText(e.totalPages.GetOr(Unknown))
    + " — Place: " + ValueText(e.place)
  }

  function ListingLines(entries: seq<FileEntry>): (ls: seq<string>)
    ensures |ls| == |entries|
    ensures forall i :: 0 <= i < |entries| ==> ls[i] == ListingLine(entries[i])
  {
    seq(|entries|, i requires 0 <= i < |entries| => ListingLine(entries[i]))
  }

  const ListingIntro := " files in the database.\n\nHere are their details:\n"

  /** The `list_files` tool reply: the count, then one line per entry. */
  function ListingText(l: Listing): string {
    "There are " + IntToString(Count(l)) + ListingIntro + Join(ListingLines(Entries(l)), "\n")
  }

  /** Every listed file has its line in the reply. */
  lemma ListingTextMentions(l: Listing, i: nat)
    requires i < |Entries(l)|
    ensures IsInfix(ListingLine(Entries(l)[i]), ListingText(l))
  {
    var body := Join(ListingLines(Entries(l)), "\n");
    JoinContainsPart(ListingLines(Entries(l)), "\n", i);
    InfixOfConcat(ListingLine(Entries(l)[i]), "There are " + IntToString(Count(l)) + ListingIntro, body);
  }

  /** Python's `repr` of a list of strings, without escaping. */
  function ReprList(xs: seq<string>): string {
    "[" + Join(seq(|xs|, i requires 0 <= i < |xs| => "'" + xs[i] + "'"), ", ") + "]"
  }

  function MatchesText(query: string, matches: seq<string>): string {
    "Best matches for '" + query + "': " + ReprList(matches)
  }

  function UnknownToolText(name: string): string {
    "No handler implemented for tool '" + name + "'."
  }

  // ---------------------------------------------------------------------
  // Dispatch (:450-498)
  // ---------------------------------------------------------------------

  /** What `json.loads(arguments)` yields for a tool call: not JSON at all
      (the `except` branch), a JSON object (with or without a string
      `query`), or some other JSON value, on which `.get` raises. */
  datatype Args = NotJson | Object(query: Option<string>) | NonObject

  datatype ToolCall = ToolCall(id: string, name: string, args: Args)

  datatype ToolMessage = ToolMessage(callId: string, content: string)

  /** The `query` argument: `{}` on a decoding failure, `""` when absent. */
  function QueryArg(a: Args): Option<string> {
    match a
    case NotJson => Some("")
    case Object(q) => Some(q.GetOr(""))
    case NonObject => None
  }

  /** The reply to one call, or None when the arguments make `.get` raise. */
  function Respond(c: ToolCall, listing: Listing, closeMatches: Matcher): (r: Option<ToolMessage>)
    requires ValidMatcher(closeMatches)
    ensures r.Some? ==> r.value.callId == c.id
    ensures r.None? <==> c.name == "find_best_file_match" && c.args.NonObject?
    ensures c.name == "list_files" ==> r == Some(ToolMessage(c.id, ListingText(listing)))
    ensures c.name !in {"list_files", "find_best_file_match"} ==>
              r == Some(ToolMessage(c.id, UnknownToolText(c.name)))
  {
    if c.name == "list_files" then Some(ToolMessage(c.id, ListingText(listing)))
    else if c.name == "find_best_file_match" then
      match QueryArg(c.args)
      case None => None
      case Some(q) =>
        Some(ToolMessage(c.id, MatchesText(q, FindBestFileMatch(Entries(listing), q, closeMatches))))
    else Some(ToolMessage(c.id, UnknownToolText(c.name)))
  }

  /** The tool messages for all calls, in call order; an argument error in
      any call aborts the request. */
  function Dispatch(calls: seq<ToolCall>, listing: Listing, closeMatches: Matcher)
    : (r: Option<seq<ToolMessage>>)
    requires ValidMatcher(closeMatches)
    ensures r.None? <==> exists i :: 0 <= i < |calls| && Respond(calls[i], listing, closeMatches).None?
    ensures r.Some? ==> |r.value| == |calls|
    ensures r.Some? ==> forall i :: 0 <= i < |calls| ==>
              Respond(calls[i], listing, closeMatches) == Some(r.value[i])
  {
    var rs := seq(|calls|, i requires 0 <= i < |calls| => Respond(calls[i], listing, closeMatches));
    if exists i :: 0 <= i < |rs| && rs[i].None? then None
    else
      assert forall i :: 0 <= i < |calls| ==> Respond(calls[i], listing, closeMatches) == rs[i];
      Some(seq(|rs|, i requires 0 <= i < |rs| => rs[i].value))
  }

  // ---------------------------------------------------------------------
  // The two rounds (:433-513)
  // ---------------------------------------------------------------------

  /** The first completion's message: its text and its tool calls. */
  datatype Reply = Reply(content: Option<string>, calls: seq<ToolCall>)

  /** How the answer was obtained: its markdown, the number of completions
      requested, and the tool messages fed back. */
  datatype Answer = Answer(markdown: string, completions: nat, toolMessages: seq<ToolMessage>)

  /** Without tool calls the first reply's text (or "") is the answer. With
      tool calls every call gets its message and exactly one follow-up
      completion is requested, whose text is the answer; a follow-up with no
      text, or a call with unusable arguments, fails the request. */
  function Converse(first: Reply, followUp: Option<string>, listing: Listing, closeMatches: Matcher)
    : (r: Result<Answer, string>)
    requires ValidMatcher(closeMatches)
    ensures first.calls == [] ==> r == Ok(Answer(first.content.GetOr(""), 1, []))
    ensures first.calls != [] && r.Ok? ==>
              && r.value.completions == 2
              && Some(r.value.toolMessages) == Dispatch(first.calls, listing, closeMatches)
              && Some(r.value.markdown) == followUp
    ensures first.calls != [] ==>
              (r.Err? <==> followUp.None? || Dispatch(first.calls, listing, closeMatches).None?)
    ensures r.Ok? ==> 1 <= r.value.completions <= 2
  {
    if first.calls == [] then Ok(Answer(first.content.GetOr(""), 1, []))
    else
      match Dispatch(first.calls, listing, closeMatches)
      case None => Err("AttributeError")
      case Some(msgs) =>
        if followUp.None? then Err("AttributeError") else Ok(Answer(followUp.value, 2, msgs))
  }
}
