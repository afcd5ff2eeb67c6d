/**
 * The stages of `ask_question` (app/routes/ask_question.py) that decide what
 * the store is asked for: command sniffing, page-number extraction, parsing
 * and validating the file classifier's reply, the keyword fallbacks, the
 * metadata filter tree and its widening, the embedding input, and the store
 * query itself. The classifier's reply and the similarity ranking of the
 * store are inputs: the language model and the embedding are not modelled.
 */
module Scope {
  import opened Util
  import opened Patterns
  import opened Metadata
  import opened Corpus
  import opened Memory

  // ---------------------------------------------------------------------
  // to_file_id
  // ---------------------------------------------------------------------

  /** `to_file_id`: the lower-cased stem of the name, or "" for "". Unlike the
      id `upload_file` stores, spaces are kept: the two agree once spaces
      are replaced, and coincide exactly when the stem has no space. */
  function ToFileId(filename: string): (fid: string)
    ensures filename == "" ==> fid == ""
    ensures filename != "" ==> |fid| == |Stem(PathName(filename))|
    ensures filename != "" ==> forall i :: 0 <= i < |fid| ==> fid[i] == LowerChar(Stem(PathName(filename))[i])
    ensures filename != "" ==> ReplaceChar(fid, ' ', '-') == UploadFileId(filename)
    ensures filename != "" ==> (fid == UploadFileId(filename) <==> ' ' !in Stem(PathName(filename)))
  {
    if filename == "" then ""
    else
      var stem := Stem(PathName(filename));
      var fid := Lower(stem);
      LowerKeepsSpaces(stem);
      ReplaceCharIdentity(fid, ' ', '-');
      fid
  }

  lemma LowerKeepsSpaces(s: string)
    ensures ' ' in Lower(s) <==> ' ' in s
  {
    if ' ' in Lower(s) {
      var i :| 0 <= i < |s| && Lower(s)[i] == ' ';
      assert s[i] == ' ';
    }
    if ' ' in s {
      var i :| 0 <= i < |s| && s[i] == ' ';
      assert Lower(s)[i] == ' ';
    }
  }

  lemma ReplaceCharIdentity(s: string, a: char, b: char)
    requires a != b
    ensures ReplaceChar(s, a, b) == s <==> a !in s
  {
    if a in s {
      var i :| 0 <= i < |s| && s[i] == a;
      assert ReplaceChar(s, a, b)[i] == b;
    }
  }

  // ---------------------------------------------------------------------
  // Command sniffing
  // ---------------------------------------------------------------------

  /** What a query asks for before any retrieval happens. */
  datatype Command =
    | DeleteCommand(target: string)
    | DebugCommand
    | Question

  /** `query.split(" ", 1)[1]`: everything after the first space. */
  function AfterFirstSpace(q: string): (rest: string)
    requires ' ' in q
    ensures |rest| < |q|
    ensures exists i :: 0 <= i < |q| && q[i] == ' ' && ' ' !in q[..i] && rest == q[i + 1..]
  {
    var i := FirstIndex(q, ' ');
    assert ' ' !in q[..i];
    q[i + 1..]
  }

  lemma ElementOfInfix(r: string, s: string, i: int, c: char)
    requires InfixAt(r, s, i) && c in r
    ensures c in s
  {
    var k :| 0 <= k < |r| && r[k] == c;
    assert s[i + k] == c;
  }

  lemma StripChars(s: string, c: char)
    requires c in Strip(s)
    ensures c in s
  {
    var r := Strip(s);
    var i :| InfixAt(r, s, i) && AllSpace(s[..i]) && AllSpace(s[i + |r|..]);
    ElementOfInfix(r, s, i, c);
  }

  /** A query that reads "delete ..." once stripped and lower-cased contains
      a space, so splitting it once on a space yields two parts. */
  lemma DeleteQueryHasSpace(q: string)
    requires StartsWith(Lower(Strip(q)), "delete ")
    ensures ' ' in q
  {
    var t := Strip(q);
    assert LowerChar(t[6]) == ' ';
    assert t[6] == ' ';
    StripChars(q, ' ');
  }

  /** `ask_question`'s command detection: the "delete " prefix is checked
      first, then the "debug" prefix, both on the stripped lower-cased
      query; the delete target is taken from the raw query after its first
      space, stripped and lower-cased. No privilege is checked. */
  function Sniff(query: string): (c: Command)
    ensures c.DeleteCommand? <==> StartsWith(Lower(Strip(query)), "delete ")
    ensures c.DebugCommand? <==> StartsWith(Lower(Strip(query)), "debug")
    ensures c.DeleteCommand? ==> exists i :: 0 <= i < |query| && query[i] == ' ' && ' ' !in query[..i]
                                   && c.target == Lower(Strip(query[i + 1..]))
  {
    var s := Lower(Strip(query));
    CommandsExclusive(query);
    if StartsWith(s, "delete ") then
      DeleteQueryHasSpace(query);
      DeleteCommand(Lower(Strip(AfterFirstSpace(query))))
    else if StartsWith(s, "debug") then
      DebugCommand
    else
      Question
  }

  /** No query is both a delete command and a debug command, so checking the
      delete prefix first never hides a debug request. */
  lemma CommandsExclusive(query: string)
    ensures !(StartsWith(Lower(Strip(query)), "delete ") && StartsWith(Lower(Strip(query)), "debug"))
  {
    PrefixesExclusive(Lower(Strip(query)));
  }

  lemma PrefixesExclusive(s: string)
    ensures !(StartsWith(s, "delete ") && StartsWith(s, "debug"))
  {
    if StartsWith(s, "delete ") {
      assert s[2] == s[..7][2] == 'l';
    }
  }

  /** Stripping a command word followed by a non-blank rest keeps the word. */
  lemma StripCommand(word: string, rest: string)
    requires word != [] && !IsSpace(word[0]) && !AllSpace(rest)
    ensures Strip(word + rest) == word + rest[..TrailingStart(rest)]
  {
    var s := word + rest;
    assert s[0] == word[0];
    StripFromNonSpaceHead(s);
    TrailingStartConcat(word, rest);
    PrefixOfConcat(word, rest, TrailingStart(rest));
  }

  lemma PrefixOfConcat(a: string, b: string, n: nat)
    requires n <= |b|
    ensures (a + b)[..|a| + n] == a + b[..n]
  {
    var l, r := (a + b)[..|a| + n], a + b[..n];
    assert |l| == |r|;
    forall i | 0 <= i < |l|
      ensures l[i] == r[i]
    {
      if i < |a| {
        assert l[i] == a[i];
      } else {
        assert l[i] == b[i - |a|];
      }
    }
  }

  lemma DeleteWordKept(name: string)
    requires !AllSpace(name)
    ensures StartsWith(Lower(Strip("delete " + name)), "delete ")
  {
    StripCommand("delete ", name);
    LowerConcat("delete ", name[..TrailingStart(name)]);
    assert Lower("delete ") == "delete ";
  }

  lemma SplitAfter(word: string, name: string)
    requires ' ' !in word
    ensures ' ' in word + " " + name && AfterFirstSpace(word + " " + name) == name
  {
    var q := word + " " + name;
    assert q[|word|] == ' ';
    assert forall k :: 0 <= k < |word| ==> q[k] == word[k];
    FirstIndexAt(q, ' ', |word|);
    assert q[|word| + 1..] == name;
  }

  /** "delete <name>" targets the stripped, lower-cased name. */
  lemma DeleteCommandTarget(name: string)
    requires !AllSpace(name)
    ensures Sniff("delete " + name) == DeleteCommand(Lower(Strip(name)))
  {
    var q := "delete " + name;
    DeleteWordKept(name);
    assert q[6] == ' ' && q[..6] == "delete" && q[7..] == name;
    FirstSpaceAt(q, 6);
    SniffDelete(q);
  }

  lemma FirstSpaceAt(q: string, i: nat)
    requires i < |q| && q[i] == ' ' && ' ' !in q[..i]
    ensures ' ' in q && AfterFirstSpace(q) == q[i + 1..]
  {
    assert forall k :: 0 <= k < i ==> q[k] == q[..i][k];
    FirstIndexAt(q, ' ', i);
  }

  /** A query that sniffs as a delete targets what follows its first space. */
  lemma SniffDelete(q: string)
    requires StartsWith(Lower(Strip(q)), "delete ") && ' ' in q
    ensures Sniff(q) == DeleteCommand(Lower(Strip(AfterFirstSpace(q))))
  {
  }

  /** The delete target is cut from the unstripped query: with a leading
      space the first split happens before the command word, which then
      becomes part of the target. */
  lemma DeleteTargetWithLeadingSpace(name: string)
    requires !AllSpace(name)
    ensures Sniff(" delete " + name) == DeleteCommand(Lower(Strip("delete " + name)))
  {
    var body := "delete " + name;
    var q := " delete " + name;
    assert q == " " + body && q == "" + " " + body;
    LeadingSpaceStripped(body);
    DeleteWordKept(name);
    assert StartsWith(Lower(Strip(q)), "delete ");
    SplitAfter("", body);
    assert AfterFirstSpace(q) == body;
  }

  lemma LeadingSpaceStripped(body: string)
    requires body != [] && !IsSpace(body[0])
    ensures Strip(" " + body) == Strip(body)
  {
    var q := " " + body;
    assert !AllSpace(body);
    assert q[1..] == body;
    assert LeadingSpaces(q) == 1;
    TrailingStartConcat(" ", body);
    StripFromNonSpaceHead(body);
    assert q[1..TrailingStart(q)] == body[..TrailingStart(body)];
  }

  // ---------------------------------------------------------------------
  // Page number
  // ---------------------------------------------------------------------

  /** `int(re.search(r"page\s+(\d+)", query, re.I).group(1))`, or None when
      nothing matches: the number after the leftmost match, so at most one
      page is ever extracted. */
  function ExtractPage(query: string): (page: Option<nat>)
    ensures page.None? <==> forall i :: 0 <= i <= |query| ==> !PageAt(query, i)
    ensures page.Some? ==> exists i :: 0 <= i <= |query| && PageAt(query, i)
                                       && page.value == PageValueAt(query, i)
                                       && forall j :: 0 <= j < i ==> !PageAt(query, j)
  {
    FirstPageFrom(query, 0)
  }

  // ---------------------------------------------------------------------
  // Classifier reply: tokens, validation, fallback
  // ---------------------------------------------------------------------

  lemma StripKeepsAbsent(s: string, c: char)
    requires c !in s
    ensures c !in Strip(s)
  {
    if c in Strip(s) {
      StripChars(s, c);
    }
  }

  /** A name as it survives token cleaning: non-empty, comma-free and
      without surrounding whitespace. */
  predicate CleanName(t: string) {
    t != [] && ',' !in t && !IsSpace(t[0]) && !IsSpace(t[|t| - 1])
  }

  /** The cleaned pieces: each stripped, the empty ones dropped. */
  function CleanTokens(parts: seq<string>): (ts: seq<string>)
    requires forall k :: 0 <= k < |parts| ==> ',' !in parts[k]
    ensures |ts| <= |parts|
    ensures forall k :: 0 <= k < |ts| ==> CleanName(ts[k])
  {
    if parts == [] then []
    else
      var t := Strip(parts[0]);
      var rest := CleanTokens(parts[1..]);
      if t == [] then rest
      else
        StripKeepsAbsent(parts[0], ',');
        [t] + rest
  }

  /** `[t.strip() for t in (content or "").strip().split(",") if t.strip()]`:
      the classifier's reply as a list of non-empty, stripped, comma-free
      names. */
  function Tokens(content: Option<string>): (ts: seq<string>)
    ensures forall k :: 0 <= k < |ts| ==> CleanName(ts[k])
  {
    CleanTokens(Split(Strip(content.GetOr("")), ','))
  }

  lemma JoinEnds(parts: seq<string>, sep: string)
    requires |parts| >= 1 && forall k :: 0 <= k < |parts| ==> parts[k] != []
    ensures var r := Join(parts, sep); |r| > 0 && r[0] == parts[0][0]
                                       && r[|r| - 1] == parts[|parts| - 1][|parts[|parts| - 1]| - 1]
  {
    if |parts| > 1 {
      JoinEnds(parts[1..], sep);
    }
  }

  lemma {:induction false} CleanTokensOfClean(ts: seq<string>)
    requires forall k :: 0 <= k < |ts| ==> CleanName(ts[k])
    ensures forall k :: 0 <= k < |ts| ==> ',' !in ts[k]
    ensures CleanTokens(ts) == ts
    decreases |ts|
  {
    assert forall k :: 0 <= k < |ts| ==> ',' !in ts[k] by {
      forall k | 0 <= k < |ts| ensures ',' !in ts[k] { assert CleanName(ts[k]); }
    }
    if ts != [] {
      assert forall k :: 0 <= k < |ts[1..]| ==> ts[1..][k] == ts[k + 1];
      StripNoSpaceEnds(ts[0]);
      CleanTokensOfClean(ts[1..]);
    }
  }

  /** A reply listing clean names separated by commas parses back to exactly
      those names, in order. */
  lemma {:induction false} TokensOfJoin(ts: seq<string>)
    requires forall k :: 0 <= k < |ts| ==> CleanName(ts[k])
    ensures Tokens(Some(Join(ts, ","))) == ts
  {
    if ts == [] {
      EmptyReplyNoTokens();
    } else {
      var r := Join(ts, ",");
      JoinEnds(ts, ",");
      StripNoSpaceEnds(r);
      SplitJoin(ts, ',');
      assert Split(Strip(r), ',') == ts;
      CleanTokensOfClean(ts);
    }
  }

  /** An empty reply names no file. */
  lemma EmptyReplyNoTokens()
    ensures Tokens(Some("")) == [] && Tokens(None) == []
  {
    assert Strip("") == "";
    assert Split("", ',') == [""];
    assert Strip(Split("", ',')[0]) == [];
  }

  /** `[t for t in tokens if t in available_files]` */
  function Validate(tokens: seq<string>, available: seq<string>): (valid: seq<string>)
    ensures |valid| <= |tokens|
    ensures forall t :: t in valid <==> t in tokens && t in available
  {
    if tokens == [] then []
    else
      var rest := Validate(tokens[1..], available);
      assert tokens == [tokens[0]] + tokens[1..];
      if tokens[0] in available then [tokens[0]] + rest else rest
  }

  /** Validation keeps token order: it distributes over concatenation. */
  lemma {:induction false} ValidateAppend(a: seq<string>, b: seq<string>, available: seq<string>)
    ensures Validate(a + b, available) == Validate(a, available) + Validate(b, available)
    decreases |a|
  {
    if a == [] {
      assert a + b == b;
    } else {
      assert (a + b)[0] == a[0];
      assert (a + b)[1..] == a[1..] + b;
      ValidateAppend(a[1..], b, available);
    }
  }

  /** Tokens that all name available files pass validation unchanged. */
  lemma {:induction false} ValidateAllAvailable(tokens: seq<string>, available: seq<string>)
    requires forall k :: 0 <= k < |tokens| ==> tokens[k] in available
    ensures Validate(tokens, available) == tokens
    decreases |tokens|
  {
    if tokens != [] {
      ValidateAllAvailable(tokens[1..], available);
    }
  }

  /** The words that make an unresolved query cover every file (:168). */
  const CompareWords: seq<string> := ["compare", "vs", "versus", "both", "all files", "all documents"]

  /** The fallback when no token validates: a comparison keyword selects
      every available file, otherwise the active file (when set) is reused. */
  function Fallback(valid: seq<string>, query: string, available: seq<string>, active: Option<string>)
    : (files: seq<string>)
    ensures valid != [] ==> files == valid
    ensures valid == [] && SearchWords(query, CompareWords) ==> files == available
    ensures valid == [] && !SearchWords(query, CompareWords) ==>
              files == (if Truthy(active) then [active.value] else [])
  {
    if valid != [] then valid
    else if SearchWords(query, CompareWords) then available
    else if Truthy(active) then [active.value]
    else []
  }

  /** The files the question is about (:161-172). */
  function ResolveFiles(content: Option<string>, query: string, available: seq<string>,
                        active: Option<string>): (files: seq<string>)
    ensures forall f :: f in files ==> f in available || (Truthy(active) && f == active.value)
    ensures (exists t :: t in Tokens(content) && t in available) ==>
              files == Validate(Tokens(content), available)
  {
    var valid := Validate(Tokens(content), available);
    Fallback(valid, query, available, active)
  }

  /** A reply that names available files, comma-separated, selects exactly
      those files in the order given. */
  lemma {:induction false} ResolveNamedFiles(ts: seq<string>, query: string, available: seq<string>, active: Option<string>)
    requires ts != []
    requires forall k :: 0 <= k < |ts| ==> CleanName(ts[k]) && ts[k] in available
    ensures ResolveFiles(Some(Join(ts, ",")), query, available, active) == ts
  {
    TokensOfJoin(ts);
    ValidateAllAvailable(ts, available);
    assert ts[0] in Tokens(Some(Join(ts, ",")));
  }

  /** `multi_file_mode` and `matched_file`. */
  datatype Selection = Selection(files: seq<string>, multi: bool, primary: Option<string>)

  function Select(files: seq<string>): (s: Selection)
    ensures s.files == files
    ensures s.multi <==> |files| > 1
    ensures s.primary.Some? <==> files != []
    ensures s.primary.Some? ==> s.primary.value == files[0]
  {
    Selection(files, |files| > 1, if files != [] then Some(files[0]) else None)
  }

  /** `if matched_file: set_last_active_file(session_id, matched_file)` */
  function RememberActive(mem: Memory.Store, sid: string, sel: Selection): (mem': Memory.Store)
    ensures Truthy(sel.primary) ==> GetLastActiveFile(mem', sid) == sel.primary
    ensures !Truthy(sel.primary) ==> mem' == mem
    ensures mem'.sessions == mem.sessions
    ensures forall other :: other != sid ==> GetLastActiveFile(mem', other) == GetLastActiveFile(mem, other)
  {
    if Truthy(sel.primary) then SetLastActiveFile(mem, sid, sel.primary.value) else mem
  }

  // ---------------------------------------------------------------------
  // The metadata filter
  // ---------------------------------------------------------------------

  /** `one_file_filter(f)`: match by normalised id or by exact source name. */
  function OneFileFilter(f: string): Filter {
    AnyOf([Eq("file_id", VStr(ToFileId(f))), Eq("source", VStr(f))])
  }

  function OneFileFilters(files: seq<string>): (fs: seq<Filter>)
    ensures |fs| == |files|
    ensures forall i :: 0 <= i < |files| ==> fs[i] == OneFileFilter(files[i])
  {
    if files == [] then [] else [OneFileFilter(files[0])] + OneFileFilters(files[1..])
  }

  /** The file part of the filter (:190-204); None is the empty filter. */
  function FileFilter(files: seq<string>): Option<Filter> {
    var sel := Select(files);
    if sel.files != [] && sel.multi then Some(AnyOf(OneFileFilters(files)))
    else if Truthy(sel.primary) then Some(OneFileFilter(files[0]))
    else None
  }

  /** `{"$or": [{"page": n}, {"page": str(n)}]}` */
  function PageFilter(n: nat): Filter {
    AnyOf([Eq("page", VInt(n)), Eq("page", VStr(NatToString(n)))])
  }

  /** The page part, conjoined when a file part exists (:207-209). The test
      is `is not None`, so page 0 is filtered on. */
  function WithPage(base: Option<Filter>, page: Option<nat>): Option<Filter> {
    if page.None? then base
    else if base.Some? then Some(AllOf([base.value, PageFilter(page.value)]))
    else Some(PageFilter(page.value))
  }

  const WidenWords: seq<string> := ["all files", "compare", "vs", "versus", "both"]
  const ClearWords: seq<string> := ["compare", "both", "all files"]

  /** :212-215: only "all files" actually empties the filter here. */
  function Widen(f: Option<Filter>, query: string): Option<Filter> {
    if SearchWords(query, WidenWords) && SearchWords(query, ["all files"]) then None else f
  }

  /** :229-230: cross-file questions are never filtered. */
  function ClearCrossFile(f: Option<Filter>, query: string): Option<Filter> {
    if SearchWords(query, ClearWords) then None else f
  }

  /** The `where` argument of the store query. */
  function QueryFilter(files: seq<string>, page: Option<nat>, query: string): Option<Filter> {
    ClearCrossFile(Widen(WithPage(FileFilter(files), page), query), query)
  }

  /** A record belongs to file `f` by id or by source name. */
  predicate MatchesFile(m: Meta, f: string) {
    m.fileId == Some(ToFileId(f)) || m.source == Some(f)
  }

  /** A record lies on page `n`, stored as an integer or as its decimal text. */
  predicate OnPage(m: Meta, n: nat) {
    m.page == Some(VInt(n)) || m.page == Some(VStr(NatToString(n)))
  }

  /** The filter is scoped to files exactly when several files resolved or
      the single one is a non-empty name. */
  predicate FileScoped(files: seq<string>) {
    |files| > 1 || (files != [] && files[0] != "")
  }

  lemma OneFileHolds(f: string, m: Meta)
    ensures Holds(OneFileFilter(f), m) <==> MatchesFile(m, f)
  {
    HoldsAnyOfTwo(Eq("file_id", VStr(ToFileId(f))), Eq("source", VStr(f)), m);
  }

  lemma PageFilterHolds(n: nat, m: Meta)
    ensures Holds(PageFilter(n), m) <==> OnPage(m, n)
  {
    HoldsAnyOfTwo(Eq("page", VInt(n)), Eq("page", VStr(NatToString(n))), m);
  }

  lemma FileFilterSemantics(files: seq<string>, m: Meta)
    ensures FileFilter(files).None? <==> !FileScoped(files)
    ensures FileFilter(files).Some? ==>
              (Holds(FileFilter(files).value, m) <==> exists i :: 0 <= i < |files| && MatchesFile(m, files[i]))
  {
    FileFilterShape(files);
    if |files| > 1 {
      AnyFileHolds(files, m);
    } else if FileScoped(files) {
      OneFileHolds(files[0], m);
    }
  }

  lemma FileFilterShape(files: seq<string>)
    ensures FileFilter(files) ==
              if |files| > 1 then Some(AnyOf(OneFileFilters(files)))
              else if FileScoped(files) then Some(OneFileFilter(files[0]))
              else None
  {
  }

  lemma AnyFileHolds(files: seq<string>, m: Meta)
    ensures Holds(AnyOf(OneFileFilters(files)), m) <==> exists i :: 0 <= i < |files| && MatchesFile(m, files[i])
  {
    var fs := OneFileFilters(files);
    if exists i :: 0 <= i < |files| && MatchesFile(m, files[i]) {
      var i :| 0 <= i < |files| && MatchesFile(m, files[i]);
      OneFileHolds(files[i], m);
      assert Holds(fs[i], m);
    }
    if Holds(AnyOf(fs), m) {
      var i :| 0 <= i < |fs| && Holds(fs[i], m);
      OneFileHolds(files[i], m);
    }
  }

  /** The filter before widening admits a record iff the record belongs to
      one of the resolved files (when the filter is file-scoped) and lies
      on the extracted page (when one was extracted); with neither, the
      query is unfiltered. */
  lemma FilterSemantics(files: seq<string>, page: Option<nat>, m: Meta)
    ensures WithPage(FileFilter(files), page).None? <==> !FileScoped(files) && page.None?
    ensures Admits(WithPage(FileFilter(files), page), m) <==>
              && (FileScoped(files) ==> exists i :: 0 <= i < |files| && MatchesFile(m, files[i]))
              && (page.Some? ==> OnPage(m, page.value))
  {
    FileFilterSemantics(files, m);
    if page.Some? {
      PageFilterHolds(page.value, m);
      var base := FileFilter(files);
      if base.Some? {
        HoldsAllOfTwo(base.value, PageFilter(page.value), m);
      }
    }
  }

  /** The widening at :212-215 is subsumed by the clearing at :229, since
      "all files" is among the clearing words. */
  lemma WidenSubsumed(f: Option<Filter>, query: string)
    ensures ClearCrossFile(Widen(f, query), query) == ClearCrossFile(f, query)
  {
    if SearchWords(query, ["all files"]) {
      SearchWordsSubset(query, ["all files"], ClearWords);
    }
  }

  /** "compare", "both" or "all files" as a word sends the query to the
      store with no filter, dropping both file and page constraints. */
  lemma CrossFileUnfiltered(files: seq<string>, page: Option<nat>, query: string)
    requires SearchWords(query, ClearWords)
    ensures QueryFilter(files, page, query).None?
  {
  }

  /** Without those words the file/page filter reaches the store unchanged;
      in particular "vs" and "versus" do not clear it. */
  lemma OtherQueriesKeepFilter(files: seq<string>, page: Option<nat>, query: string)
    requires !SearchWords(query, ClearWords)
    ensures QueryFilter(files, page, query) == WithPage(FileFilter(files), page)
  {
    WidenSubsumed(WithPage(FileFilter(files), page), query);
  }

  /** `input="page lookup" if page_num else query`: truthiness, so page 0
      embeds the query itself. */
  function EmbeddingInput(page: Option<nat>, query: string): (input: string)
    ensures page.None? ==> input == query
    ensures page.Some? && page.value != 0 ==> input == "page lookup"
    ensures page.Some? ==> (input == query <==> page.value == 0 || query == "page lookup")
  {
    if page.Some? && page.value != 0 then "page lookup" else query
  }

  /** Page 0 is treated inconsistently: the filter constrains to page 0 while
      the embedding input is the unchanged query. */
  lemma PageZeroInconsistent(files: seq<string>, query: string)
    ensures EmbeddingInput(Some(0), query) == query
    ensures WithPage(FileFilter(files), Some(0)).Some?
  {
  }

  // ---------------------------------------------------------------------
  // The store query
  // ---------------------------------------------------------------------

  /** `n_results=10` */
  const MaxResults: nat := 10

  /** A similarity ranking of the store: every index exactly once. */
  predicate ValidRanking(ranking: seq<nat>, n: nat) {
    && (forall k :: 0 <= k < |ranking| ==> ranking[k] < n)
    && (forall j :: 0 <= j < n ==> j in ranking)
    && NoDuplicates(ranking)
  }

  /** The ranked records the filter admits, best first. */
  function Admitted(store: seq<Chunk>, where: Option<Filter>, ranking: seq<nat>): (cs: seq<Chunk>)
    ensures |cs| <= |ranking|
    ensures forall c :: c in cs ==> c in store && Admits(where, c.meta)
    ensures forall k :: 0 <= k < |ranking| && ranking[k] < |store| && Admits(where, store[ranking[k]].meta)
                        ==> store[ranking[k]] in cs
  {
    if ranking == [] then []
    else
      var rest := Admitted(store, where, ranking[1..]);
      assert forall k :: 1 <= k < |ranking| ==> ranking[k] == ranking[1..][k - 1];
      if ranking[0] < |store| && Admits(where, store[ranking[0]].meta) then [store[ranking[0]]] + rest
      else rest
  }

  /** `collection.query(..., where=..., n_results=10)`: the ten best-ranked
      records that satisfy the filter. */
  function QueryStore(store: seq<Chunk>, where: Option<Filter>, ranking: seq<nat>): (r: seq<Chunk>)
    ensures |r| <= MaxResults
    ensures forall c :: c in r ==> c in store && Admits(where, c.meta)
    ensures |r| < MaxResults ==> r == Admitted(store, where, ranking)
    ensures |r| <= |Admitted(store, where, ranking)| && r == Admitted(store, where, ranking)[..|r|]
  {
    var cs := Admitted(store, where, ranking);
    if |cs| <= MaxResults then cs else cs[..MaxResults]
  }

  /** With a ranking of the whole store, the query comes back empty exactly
      when no stored record satisfies the filter. */
  lemma QueryEmptyIff(store: seq<Chunk>, where: Option<Filter>, ranking: seq<nat>)
    requires ValidRanking(ranking, |store|)
    ensures QueryStore(store, where, ranking) == [] <==> forall c :: c in store ==> !Admits(where, c.meta)
  {
    if exists c :: c in store && Admits(where, c.meta) {
      var c :| c in store && Admits(where, c.meta);
      var j :| 0 <= j < |store| && store[j] == c;
      assert j in ranking;
      var k :| 0 <= k < |ranking| && ranking[k] == j;
      assert ranking[k] < |store| && Admits(where, store[ranking[k]].meta);
      assert c in Admitted(store, where, ranking);
      assert QueryStore(store, where, ranking) != [];
    } else {
      var r := QueryStore(store, where, ranking);
      if r != [] {
        assert r[0] in r;
      }
    }
  }
}
