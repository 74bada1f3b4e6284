/**
 * `search_pdf_with_queries`: the compound-query rule applied to one PDF.
 *
 * Each query is typed by its `query_type` string. Filter queries (`"filter"`)
 * gate the whole document: each must match on some page, or the file yields
 * nothing. Parallel queries (`"parallel"`) produce the results, query by
 * query, page by page, occurrence by occurrence. When no query is parallel,
 * the first query of the list is searched instead, whatever its type. A
 * query of any other type takes part in neither group.
 *
 * The PDF is an input: its path and either the text of its pages, in page
 * order, or nothing when the document cannot be loaded. A page whose text
 * cannot be extracted is the empty text.
 */
module QueryEngine {
  import opened Wrappers
  import opened Text
  import opened PageSearch
  import opened Zotero

  /** `QueryItem` (the highlight colour is not modelled). */
  datatype QueryItem = QueryItem(query: string, useRegex: bool, queryType: string)

  /** `SearchMatch`: one occurrence, with its file, page and citation data. */
  datatype SearchMatch = SearchMatch(
    filePath: string,
    fileName: string,
    pageNumber: nat,
    contextBefore: string,
    matchedText: string,
    contextAfter: string,
    zoteroLink: Option<string>,
    zoteroMetadata: Option<ZoteroMetadata>)

  /** A PDF as the search sees it: its path, and its pages' text or nothing
      when it cannot be loaded. */
  datatype PdfFile = PdfFile(path: string, pages: Option<seq<string>>)

  /** The fields every match of one file shares. */
  datatype Origin = Origin(
    filePath: string,
    fileName: string,
    zoteroLink: Option<string>,
    zoteroMetadata: Option<ZoteroMetadata>)

  const Parallel: string := "parallel"
  const Filter: string := "filter"

  // ---------------------------------------------------------------------------
  // Query lists

  /** The queries of type `t`, in their order. */
  function OfType(qs: seq<QueryItem>, t: string): (r: seq<QueryItem>)
    ensures |r| <= |qs|
    ensures forall q :: q in r ==> q in qs && q.queryType == t
    ensures forall q :: q in qs && q.queryType == t ==> q in r
  {
    if qs == [] then []
    else (if qs[0].queryType == t then [qs[0]] else []) + OfType(qs[1..], t)
  }

  function ParallelQueries(qs: seq<QueryItem>): seq<QueryItem> {
    OfType(qs, Parallel)
  }

  function FilterQueries(qs: seq<QueryItem>): seq<QueryItem> {
    OfType(qs, Filter)
  }

  /** The queries whose matches are reported: the parallel ones, or the first
      query alone when there is none. */
  function QueriesToSearch(qs: seq<QueryItem>): (r: seq<QueryItem>)
    ensures forall q :: q in r ==> q in qs
  {
    if ParallelQueries(qs) == [] && qs != [] then [qs[0]] else ParallelQueries(qs)
  }

  /** A query the page search can run: a literal query must not normalize to
      the empty text, on which the literal loop would never end. */
  predicate Searchable(q: QueryItem) {
    q.useRegex || Normalize(q.query) != []
  }

  predicate AllSearchable(qs: seq<QueryItem>) {
    forall q :: q in qs ==> Searchable(q)
  }

  /** The queries `search_pdf_with_queries` may search are searchable: the
      filter queries and the queries whose matches are reported. A query of
      any other type, after the first, is never searched and may be empty. */
  predicate SearchableQueries(qs: seq<QueryItem>) {
    AllSearchable(FilterQueries(qs)) && AllSearchable(QueriesToSearch(qs))
  }

  // ---------------------------------------------------------------------------
  // The search of one file, as a value

  /** `path.file_name()`: the last component of a path. */
  function FileName(path: string): (name: string)
    ensures '/' !in name
    ensures |name| <= |path| && name == path[|path| - |name|..]
  {
    AfterLast(path, '/')
  }

  /** The Zotero metadata of a file, looked up by file name when there is a
      Zotero map. */
  function Lookup(zoteroMap: Option<map<string, ZoteroMetadata>>, fileName: string): (m: Option<ZoteroMetadata>)
    ensures m.Some? <==> zoteroMap.Some? && fileName in zoteroMap.value
    ensures m.Some? ==> m.value == zoteroMap.value[fileName]
  {
    if zoteroMap.Some? && fileName in zoteroMap.value then Some(zoteroMap.value[fileName]) else None
  }

  function OriginOf(path: string, zoteroMap: Option<map<string, ZoteroMetadata>>): (o: Origin)
    ensures o.filePath == path && o.fileName == FileName(path)
    ensures o.zoteroMetadata == Lookup(zoteroMap, FileName(path))
    ensures o.zoteroLink.Some? <==> o.zoteroMetadata.Some?
    ensures o.zoteroLink.Some? ==> o.zoteroLink.value == o.zoteroMetadata.value.zoteroLink
  {
    var name := FileName(path);
    var meta := Lookup(zoteroMap, name);
    Origin(path, name, if meta.Some? then Some(meta.value.zoteroLink) else None, meta)
  }

  function ToMatch(o: Origin, pageNumber: nat, h: Hit): SearchMatch {
    SearchMatch(o.filePath, o.fileName, pageNumber, h.contextBefore, h.matchedText, h.contextAfter,
                o.zoteroLink, o.zoteroMetadata)
  }

  /** The matches of the hits of one page, in the hits' order. */
  function ToMatches(o: Origin, pageNumber: nat, hs: seq<Hit>): (ms: seq<SearchMatch>)
    ensures |ms| == |hs|
  {
    seq(|hs|, i requires 0 <= i < |hs| => ToMatch(o, pageNumber, hs[i]))
  }

  /** Appends `r`'s matches to `acc`, or passes its error on. */
  function Then(acc: seq<SearchMatch>, r: Result<seq<SearchMatch>, SearchError>): Result<seq<SearchMatch>, SearchError> {
    match r
    case Success(v) => Success(acc + v)
    case Failure(err) => Failure(err)
  }

  lemma ThenNothing(r: Result<seq<SearchMatch>, SearchError>)
    ensures Then([], r) == r
  {
    if r.Success? {
      assert [] + r.value == r.value;
    }
  }

  lemma ThenThen(a: seq<SearchMatch>, b: seq<SearchMatch>, r: Result<seq<SearchMatch>, SearchError>)
    ensures Then(a, Then(b, r)) == Then(a + b, r)
  {
    if r.Success? {
      assert a + (b + r.value) == (a + b) + r.value;
    }
  }

  /** Whether query `q` matches on some page from page `i` on: the pages are
      searched in order up to the first page with a match, and the first
      error ends the search. */
  function FoundOnSomePage(pages: seq<string>, q: QueryItem, k: nat, e: RegexEngine, i: nat): Result<bool, SearchError>
    requires ValidEngine(e) && Searchable(q) && i <= |pages|
    decreases |pages| - i
  {
    if i == |pages| then Success(false)
    else
      match PageHits(pages[i], q.query, k, q.useRegex, e)
      case Failure(err) => Failure(err)
      case Success(hs) => if hs != [] then Success(true) else FoundOnSomePage(pages, q, k, e, i + 1)
  }

  /** Whether every filter query matches somewhere in the document, checked
      in order; the first error ends the check. */
  function PassesFilters(pages: seq<string>, filters: seq<QueryItem>, k: nat, e: RegexEngine): Result<bool, SearchError>
    requires ValidEngine(e) && AllSearchable(filters)
  {
    if filters == [] then Success(true)
    else
      match FoundOnSomePage(pages, filters[0], k, e, 0)
      case Failure(err) => Failure(err)
      case Success(found) => if !found then Success(false) else PassesFilters(pages, filters[1..], k, e)
  }

  /** The matches of query `q` on the pages from page `i` on (page `i` of the
      list is page number `i + 1`). */
  function QueryMatches(o: Origin, pages: seq<string>, q: QueryItem, k: nat, e: RegexEngine, i: nat): Result<seq<SearchMatch>, SearchError>
    requires ValidEngine(e) && Searchable(q) && i <= |pages|
    decreases |pages| - i
  {
    if i == |pages| then Success([])
    else
      match PageHits(pages[i], q.query, k, q.useRegex, e)
      case Failure(err) => Failure(err)
      case Success(hs) => Then(ToMatches(o, i + 1, hs), QueryMatches(o, pages, q, k, e, i + 1))
  }

  /** The matches of the queries, query by query. */
  function CollectMatches(o: Origin, pages: seq<string>, qs: seq<QueryItem>, k: nat, e: RegexEngine): Result<seq<SearchMatch>, SearchError>
    requires ValidEngine(e) && AllSearchable(qs)
  {
    if qs == [] then Success([])
    else
      match QueryMatches(o, pages, qs[0], k, e, 0)
      case Failure(err) => Failure(err)
      case Success(ms) => Then(ms, CollectMatches(o, pages, qs[1..], k, e))
  }

  /** What `search_pdf_with_queries` returns, as a value. */
  function SearchFile(file: PdfFile, queries: seq<QueryItem>, k: nat, e: RegexEngine,
                      zoteroMap: Option<map<string, ZoteroMetadata>>): Result<seq<SearchMatch>, SearchError>
    requires ValidEngine(e) && SearchableQueries(queries)
  {
    match file.pages
    case None => Failure(LoadFailed(file.path))
    case Some(pages) =>
      match PassesFilters(pages, FilterQueries(queries), k, e)
      case Failure(err) => Failure(err)
      case Success(passes) =>
        if !passes then Success([])
        else CollectMatches(OriginOf(file.path, zoteroMap), pages, QueriesToSearch(queries), k, e)
  }

  lemma ToMatchesSnoc(o: Origin, pageNumber: nat, hs: seq<Hit>, h: nat)
    requires h < |hs|
    ensures ToMatches(o, pageNumber, hs[..h + 1]) == ToMatches(o, pageNumber, hs[..h]) + [ToMatch(o, pageNumber, hs[h])]
  {
  }

  /** The filter check from filter `fi` on: that filter's page search, then
      the filters after it. */
  lemma FilterStep(pages: seq<string>, filters: seq<QueryItem>, k: nat, e: RegexEngine, fi: nat)
    requires ValidEngine(e) && AllSearchable(filters) && fi < |filters|
    ensures filters[fi] in filters && AllSearchable(filters[fi..]) && AllSearchable(filters[fi + 1..])
    ensures PassesFilters(pages, filters[fi..], k, e) ==
      match FoundOnSomePage(pages, filters[fi], k, e, 0)
      case Failure(err) => Failure(err)
      case Success(found) => if !found then Success(false) else PassesFilters(pages, filters[fi + 1..], k, e)
  {
    assert filters[fi..][1..] == filters[fi + 1..];
  }

  /** The collection from query `qi` on: that query's matches, then the
      matches of the queries after it. */
  lemma CollectStep(o: Origin, pages: seq<string>, qs: seq<QueryItem>, k: nat, e: RegexEngine, qi: nat)
    requires ValidEngine(e) && AllSearchable(qs) && qi < |qs|
    ensures qs[qi] in qs && AllSearchable(qs[qi..]) && AllSearchable(qs[qi + 1..])
    ensures CollectMatches(o, pages, qs[qi..], k, e) ==
      match QueryMatches(o, pages, qs[qi], k, e, 0)
      case Failure(err) => Failure(err)
      case Success(ms) => Then(ms, CollectMatches(o, pages, qs[qi + 1..], k, e))
  {
    assert qs[qi..][1..] == qs[qi + 1..];
  }

  // ---------------------------------------------------------------------------
  // Properties of the search of one file

  /** Query `q` has a match on page text `page`. */
  predicate HasMatch(page: string, q: QueryItem, k: nat, e: RegexEngine)
    requires ValidEngine(e) && Searchable(q)
  {
    PageHits(page, q.query, k, q.useRegex, e).Success? && PageHits(page, q.query, k, q.useRegex, e).value != []
  }

  /** The page search of `q` cannot fail: it is literal, or its pattern
      compiles. */
  predicate NeverFails(q: QueryItem, e: RegexEngine) {
    !q.useRegex || e.compiles(RegexPattern(Normalize(q.query)))
  }

  /** A query that cannot fail is found exactly when some page from `i` on
      has a match. */
  lemma {:induction false} FoundOnSomePageMeaning(pages: seq<string>, q: QueryItem, k: nat, e: RegexEngine, i: nat)
    requires ValidEngine(e) && Searchable(q) && NeverFails(q, e) && i <= |pages|
    ensures FoundOnSomePage(pages, q, k, e, i).Success?
    ensures FoundOnSomePage(pages, q, k, e, i).value <==> exists p :: i <= p < |pages| && HasMatch(pages[p], q, k, e)
    decreases |pages| - i
  {
    if i < |pages| {
      PageHitsFailure(pages[i], q.query, k, q.useRegex, e);
      FoundOnSomePageMeaning(pages, q, k, e, i + 1);
      if exists p :: i <= p < |pages| && HasMatch(pages[p], q, k, e) {
        var p :| i <= p < |pages| && HasMatch(pages[p], q, k, e);
        if p > i && !HasMatch(pages[i], q, k, e) {
          assert i + 1 <= p;
        }
      }
    }
  }

  /** Query `q` has a match on some page. */
  predicate MatchesSomewhere(pages: seq<string>, q: QueryItem, k: nat, e: RegexEngine)
    requires ValidEngine(e) && Searchable(q)
  {
    exists p :: 0 <= p < |pages| && HasMatch(pages[p], q, k, e)
  }

  /** When no filter can fail, the document passes exactly when every filter
      query has a match on some page. */
  lemma {:induction false} PassesFiltersMeaning(pages: seq<string>, filters: seq<QueryItem>, k: nat, e: RegexEngine)
    requires ValidEngine(e) && AllSearchable(filters)
    requires forall f :: f in filters ==> NeverFails(f, e)
    ensures PassesFilters(pages, filters, k, e).Success?
    ensures PassesFilters(pages, filters, k, e).value <==>
      forall j :: 0 <= j < |filters| ==> MatchesSomewhere(pages, filters[j], k, e)
  {
    if filters != [] {
      var rest := filters[1..];
      assert filters[0] in filters;
      FoundOnSomePageMeaning(pages, filters[0], k, e, 0);
      var found := FoundOnSomePage(pages, filters[0], k, e, 0);
      assert found.value <==> MatchesSomewhere(pages, filters[0], k, e);
      assert forall f :: f in rest ==> f in filters;
      PassesFiltersMeaning(pages, rest, k, e);
      assert PassesFilters(pages, filters, k, e) ==
        if !found.value then Success(false) else PassesFilters(pages, rest, k, e);
      MatchesSomewhereEach(pages, filters, k, e);
    }
  }

  lemma MatchesSomewhereEach(pages: seq<string>, filters: seq<QueryItem>, k: nat, e: RegexEngine)
    requires ValidEngine(e) && AllSearchable(filters) && filters != []
    ensures AllSearchable(filters[1..])
    ensures (forall j :: 0 <= j < |filters| ==> MatchesSomewhere(pages, filters[j], k, e)) <==>
      MatchesSomewhere(pages, filters[0], k, e) && forall j :: 0 <= j < |filters[1..]| ==> MatchesSomewhere(pages, filters[1..][j], k, e)
  {
    assert forall f :: f in filters[1..] ==> f in filters;
    assert forall j :: 1 <= j < |filters| ==> filters[j] == filters[1..][j - 1];
  }

  /** A document in which some filter query matches nowhere yields nothing,
      provided no filter can fail before that one is checked. */
  lemma FilterMissYieldsNothing(file: PdfFile, queries: seq<QueryItem>, k: nat, e: RegexEngine,
                                zoteroMap: Option<map<string, ZoteroMetadata>>, j: nat)
    requires ValidEngine(e) && SearchableQueries(queries) && file.pages.Some?
    requires forall f :: f in FilterQueries(queries) ==> NeverFails(f, e)
    requires j < |FilterQueries(queries)|
    requires forall p :: 0 <= p < |file.pages.value| ==> !HasMatch(file.pages.value[p], FilterQueries(queries)[j], k, e)
    ensures SearchFile(file, queries, k, e, zoteroMap) == Success([])
  {
    PassesFiltersMeaning(file.pages.value, FilterQueries(queries), k, e);
  }

  /** Selecting by type keeps a list whose queries all have that type. */
  lemma {:induction false} OfTypeKeepsAll(qs: seq<QueryItem>, t: string)
    requires forall i :: 0 <= i < |qs| ==> qs[i].queryType == t
    ensures OfType(qs, t) == qs
  {
    if qs != [] {
      OfTypeKeepsAll(qs[1..], t);
      assert [qs[0]] + qs[1..] == qs;
    }
  }

  lemma OfTypeIdempotent(qs: seq<QueryItem>, t: string)
    ensures OfType(OfType(qs, t), t) == OfType(qs, t)
  {
    var r := OfType(qs, t);
    assert forall i :: 0 <= i < |r| ==> r[i] in r;
    OfTypeKeepsAll(r, t);
  }

  /** Selecting one type and then another leaves nothing. */
  lemma {:induction false} OfTypeOther(qs: seq<QueryItem>, t: string, u: string)
    requires t != u
    ensures OfType(OfType(qs, t), u) == []
  {
    if qs != [] {
      OfTypeOther(qs[1..], t, u);
      var rest := OfType(qs[1..], t);
      if qs[0].queryType == t {
        assert OfType(qs, t) == [qs[0]] + rest;
        assert ([qs[0]] + rest)[1..] == rest;
        assert OfType([qs[0]] + rest, u) == OfType(rest, u);
      } else {
        assert OfType(qs, t) == rest;
      }
    }
  }

  /** Filters never add matches when there is a parallel query: a document
      that passes the filters yields what the parallel queries alone yield. */
  lemma FiltersDoNotAdd(file: PdfFile, queries: seq<QueryItem>, k: nat, e: RegexEngine,
                        zoteroMap: Option<map<string, ZoteroMetadata>>)
    requires ValidEngine(e) && SearchableQueries(queries) && file.pages.Some?
    requires ParallelQueries(queries) != []
    requires PassesFilters(file.pages.value, FilterQueries(queries), k, e) == Success(true)
    ensures SearchableQueries(ParallelQueries(queries))
    ensures SearchFile(file, queries, k, e, zoteroMap) == SearchFile(file, ParallelQueries(queries), k, e, zoteroMap)
  {
    OfTypeIdempotent(queries, Parallel);
    OfTypeOther(queries, Parallel, Filter);
  }

  /** With no parallel query, only the first query is searched, even when it
      is a filter: then a filter's own matches are reported. */
  lemma NoParallelSearchesFirst(file: PdfFile, queries: seq<QueryItem>, k: nat, e: RegexEngine,
                                zoteroMap: Option<map<string, ZoteroMetadata>>)
    requires ValidEngine(e) && SearchableQueries(queries) && file.pages.Some?
    requires ParallelQueries(queries) == [] && queries != []
    requires PassesFilters(file.pages.value, FilterQueries(queries), k, e) == Success(true)
    ensures queries[0] in queries
    ensures SearchFile(file, queries, k, e, zoteroMap)
      == QueryMatches(OriginOf(file.path, zoteroMap), file.pages.value, queries[0], k, e, 0)
  {
    assert queries[0] in queries;
    assert QueriesToSearch(queries) == [queries[0]];
    CollectOne(OriginOf(file.path, zoteroMap), file.pages.value, queries[0], k, e);
  }

  lemma CollectOne(o: Origin, pages: seq<string>, q: QueryItem, k: nat, e: RegexEngine)
    requires ValidEngine(e) && Searchable(q)
    ensures AllSearchable([q])
    ensures CollectMatches(o, pages, [q], k, e) == QueryMatches(o, pages, q, k, e, 0)
  {
    assert [q][1..] == [];
    var r := QueryMatches(o, pages, q, k, e, 0);
    if r.Success? {
      assert r.value + [] == r.value;
    }
  }

  /** The matches of one query that cannot fail: as many as its hits on all
      pages, so a single filter query that matches somewhere yields its own
      matches. */
  lemma {:induction false} QueryMatchesNonEmpty(o: Origin, pages: seq<string>, q: QueryItem, k: nat, e: RegexEngine, i: nat, p: nat)
    requires ValidEngine(e) && Searchable(q) && NeverFails(q, e) && i <= p < |pages|
    requires HasMatch(pages[p], q, k, e)
    ensures QueryMatches(o, pages, q, k, e, i).Success?
    ensures QueryMatches(o, pages, q, k, e, i).value != []
    decreases |pages| - i
  {
    PageHitsFailure(pages[i], q.query, k, q.useRegex, e);
    QueryMatchesNeverFail(o, pages, q, k, e, i + 1);
    if i < p {
      QueryMatchesNonEmpty(o, pages, q, k, e, i + 1, p);
    }
  }

  lemma {:induction false} QueryMatchesNeverFail(o: Origin, pages: seq<string>, q: QueryItem, k: nat, e: RegexEngine, i: nat)
    requires ValidEngine(e) && Searchable(q) && NeverFails(q, e) && i <= |pages|
    ensures QueryMatches(o, pages, q, k, e, i).Success?
    decreases |pages| - i
  {
    if i < |pages| {
      PageHitsFailure(pages[i], q.query, k, q.useRegex, e);
      QueryMatchesNeverFail(o, pages, q, k, e, i + 1);
    }
  }

  /** Match `m` belongs to the file described by `o`. */
  predicate FromOrigin(m: SearchMatch, o: Origin) {
    && m.filePath == o.filePath && m.fileName == o.fileName
    && m.zoteroLink == o.zoteroLink && m.zoteroMetadata == o.zoteroMetadata
  }

  /** The matches sit on pages `lo..hi` in page order and carry the origin's data. */
  predicate OnPagesInOrder(ms: seq<SearchMatch>, lo: nat, hi: nat, o: Origin) {
    && (forall t :: 0 <= t < |ms| ==> lo <= ms[t].pageNumber <= hi && FromOrigin(ms[t], o))
    && (forall t, u :: 0 <= t < u < |ms| ==> ms[t].pageNumber <= ms[u].pageNumber)
  }

  /** The matches of one page put before those of the later pages keep
      page order. */
  lemma OnPagesPrepend(head: seq<SearchMatch>, rest: seq<SearchMatch>, lo: nat, hi: nat, o: Origin)
    requires lo <= hi
    requires forall t :: 0 <= t < |head| ==> head[t].pageNumber == lo && FromOrigin(head[t], o)
    requires OnPagesInOrder(rest, lo + 1, hi, o)
    ensures OnPagesInOrder(head + rest, lo, hi, o)
  {
    var ms := head + rest;
    assert forall t :: |head| <= t < |ms| ==> ms[t] == rest[t - |head|];
  }

  /** The matches of one query, from page `i` on, carry page numbers in
      `i + 1..|pages|`, in page order. */
  lemma {:induction false} QueryMatchesPages(o: Origin, pages: seq<string>, q: QueryItem, k: nat, e: RegexEngine, i: nat)
    requires ValidEngine(e) && Searchable(q) && i <= |pages|
    requires QueryMatches(o, pages, q, k, e, i).Success?
    ensures OnPagesInOrder(QueryMatches(o, pages, q, k, e, i).value, i + 1, |pages|, o)
    decreases |pages| - i
  {
    if i < |pages| {
      var hs := PageHits(pages[i], q.query, k, q.useRegex, e).value;
      QueryMatchesPages(o, pages, q, k, e, i + 1);
      var head := ToMatches(o, i + 1, hs);
      var rest := QueryMatches(o, pages, q, k, e, i + 1).value;
      assert QueryMatches(o, pages, q, k, e, i).value == head + rest;
      OnPagesPrepend(head, rest, i + 1, |pages|, o);
    }
  }

  /** The matches of the queries carry page numbers in `1..|pages|` and the
      file's path, name and citation data. */
  lemma {:induction false} CollectMatchesPages(o: Origin, pages: seq<string>, qs: seq<QueryItem>, k: nat, e: RegexEngine)
    requires ValidEngine(e) && AllSearchable(qs)
    requires CollectMatches(o, pages, qs, k, e).Success?
    ensures forall m :: m in CollectMatches(o, pages, qs, k, e).value ==>
      1 <= m.pageNumber <= |pages| && FromOrigin(m, o)
  {
    if qs != [] {
      assert forall q :: q in qs[1..] ==> q in qs;
      QueryMatchesPages(o, pages, qs[0], k, e, 0);
      CollectMatchesPages(o, pages, qs[1..], k, e);
    }
  }

  /** Every match reported for a file is on one of its pages, numbered from
      1, and carries the file's path, name and Zotero data. */
  lemma SearchFileMatches(file: PdfFile, queries: seq<QueryItem>, k: nat, e: RegexEngine,
                          zoteroMap: Option<map<string, ZoteroMetadata>>)
    requires ValidEngine(e) && SearchableQueries(queries)
    requires SearchFile(file, queries, k, e, zoteroMap).Success?
    ensures file.pages.Some?
    ensures forall m :: m in SearchFile(file, queries, k, e, zoteroMap).value ==>
      && 1 <= m.pageNumber <= |file.pages.value|
      && m.filePath == file.path && m.fileName == FileName(file.path)
      && m.zoteroMetadata == Lookup(zoteroMap, FileName(file.path))
  {
    var pages := file.pages.value;
    if PassesFilters(pages, FilterQueries(queries), k, e) == Success(true) {
      CollectMatchesPages(OriginOf(file.path, zoteroMap), pages, QueriesToSearch(queries), k, e);
    }
  }

  /** A search with queries that cannot fail fails only on a PDF that cannot
      be loaded. */
  lemma {:induction false} CollectNeverFails(o: Origin, pages: seq<string>, qs: seq<QueryItem>, k: nat, e: RegexEngine)
    requires ValidEngine(e) && AllSearchable(qs)
    requires forall q :: q in qs ==> NeverFails(q, e)
    ensures CollectMatches(o, pages, qs, k, e).Success?
  {
    if qs != [] {
      assert forall q :: q in qs[1..] ==> q in qs;
      QueryMatchesNeverFail(o, pages, qs[0], k, e, 0);
      CollectNeverFails(o, pages, qs[1..], k, e);
    }
  }

  lemma SearchFileFailure(file: PdfFile, queries: seq<QueryItem>, k: nat, e: RegexEngine,
                          zoteroMap: Option<map<string, ZoteroMetadata>>)
    requires ValidEngine(e) && SearchableQueries(queries)
    requires forall q :: q in queries ==> NeverFails(q, e)
    ensures SearchFile(file, queries, k, e, zoteroMap).Failure? <==> file.pages.None?
  {
    if file.pages.Some? {
      PassesFiltersMeaning(file.pages.value, FilterQueries(queries), k, e);
      CollectNeverFails(OriginOf(file.path, zoteroMap), file.pages.value, QueriesToSearch(queries), k, e);
    }
  }

  // ---------------------------------------------------------------------------
  // The method

  /** `search_pdf_with_queries`. */
  method SearchPdfWithQueries(file: PdfFile, queries: seq<QueryItem>, contextWords: nat, e: RegexEngine,
                              zoteroMap: Option<map<string, ZoteroMetadata>>)
    returns (r: Result<seq<SearchMatch>, SearchError>)
    requires ValidEngine(e) && SearchableQueries(queries)
    ensures r == SearchFile(file, queries, contextWords, e, zoteroMap)
  {
    if file.pages.None? {
      return Failure(LoadFailed(file.path));
    }
    var pages := file.pages.value;

    var fileName := FileName(file.path);
    var zoteroMetadata := Lookup(zoteroMap, fileName);
    var zoteroLink := if zoteroMetadata.Some? then Some(zoteroMetadata.value.zoteroLink) else None;
    var origin := Origin(file.path, fileName, zoteroLink, zoteroMetadata);

    var parallelQueries := ParallelQueries(queries);
    var filterQueries := FilterQueries(queries);

    // Every filter query must match somewhere in the document.
    for fi := 0 to |filterQueries|
      invariant PassesFilters(pages, filterQueries[fi..], contextWords, e) == PassesFilters(pages, filterQueries, contextWords, e)
    {
      var queryItem := filterQueries[fi];
      FilterStep(pages, filterQueries, contextWords, e, fi);
      var foundInPdf := false;
      for pi := 0 to |pages|
        invariant !foundInPdf
        invariant FoundOnSomePage(pages, queryItem, contextWords, e, pi) == FoundOnSomePage(pages, queryItem, contextWords, e, 0)
      {
        var matches := SearchInPage(pages[pi], queryItem.query, contextWords, queryItem.useRegex, e);
        assert FoundOnSomePage(pages, queryItem, contextWords, e, pi) ==
          match matches
          case Failure(err) => Failure(err)
          case Success(hs) => if hs != [] then Success(true) else FoundOnSomePage(pages, queryItem, contextWords, e, pi + 1);
        if matches.Failure? {
          return Failure(matches.error);
        }
        if matches.value != [] {
          foundInPdf := true;
          break;
        }
      }
      if !foundInPdf {
        return Success([]);
      }
    }
    assert filterQueries[|filterQueries|..] == [];

    // The document passes every filter: collect the matches.
    var queriesToSearch := if |parallelQueries| == 0 && |queries| != 0 then [queries[0]] else parallelQueries;
    assert queriesToSearch == QueriesToSearch(queries);
    r := CollectQueryMatches(origin, pages, queriesToSearch, contextWords, e);
  }

  /** The collecting loops of `search_pdf_with_queries`: for each query to
      search, for each page, one match per occurrence, pushed in order; the
      first error ends the search. */
  method CollectQueryMatches(origin: Origin, pages: seq<string>, queriesToSearch: seq<QueryItem>, contextWords: nat, e: RegexEngine)
    returns (r: Result<seq<SearchMatch>, SearchError>)
    requires ValidEngine(e) && AllSearchable(queriesToSearch)
    ensures r == CollectMatches(origin, pages, queriesToSearch, contextWords, e)
  {
    var finalResults: seq<SearchMatch> := [];
    assert queriesToSearch[0..] == queriesToSearch;
    ThenNothing(CollectMatches(origin, pages, queriesToSearch, contextWords, e));
    for qi := 0 to |queriesToSearch|
      invariant AllSearchable(queriesToSearch[qi..])
      invariant Then(finalResults, CollectMatches(origin, pages, queriesToSearch[qi..], contextWords, e))
        == CollectMatches(origin, pages, queriesToSearch, contextWords, e)
    {
      var queryItem := queriesToSearch[qi];
      ghost var rest := CollectMatches(origin, pages, queriesToSearch[qi + 1..], contextWords, e);
      ghost var queryResult := QueryMatches(origin, pages, queryItem, contextWords, e, 0);
      CollectStep(origin, pages, queriesToSearch, contextWords, e, qi);
      ghost var before := finalResults;
      var r' := CollectQuery(finalResults, origin, pages, queryItem, contextWords, e);
      if r'.Failure? {
        return Failure(r'.error);
      }
      finalResults := r'.value;
      ThenThen(before, queryResult.value, rest);
    }
    assert queriesToSearch[|queriesToSearch|..] == [];
    assert finalResults + [] == finalResults;
    return Success(finalResults);
  }

  /** The page loop of one query: `acc` followed by the query's matches,
      page by page, or the first error of the page search. */
  method CollectQuery(acc: seq<SearchMatch>, origin: Origin, pages: seq<string>, queryItem: QueryItem, contextWords: nat, e: RegexEngine)
    returns (r: Result<seq<SearchMatch>, SearchError>)
    requires ValidEngine(e) && Searchable(queryItem)
    ensures r == Then(acc, QueryMatches(origin, pages, queryItem, contextWords, e, 0))
  {
    var finalResults := acc;
    assert finalResults + [] == finalResults;
    for pi := 0 to |pages|
      invariant Then(finalResults, QueryMatches(origin, pages, queryItem, contextWords, e, pi))
        == Then(acc, QueryMatches(origin, pages, queryItem, contextWords, e, 0))
    {
      var matches := SearchInPage(pages[pi], queryItem.query, contextWords, queryItem.useRegex, e);
      if matches.Failure? {
        return Failure(matches.error);
      }
      ghost var atPage := finalResults;
      finalResults := PushMatches(finalResults, origin, pi + 1, matches.value);
      ThenThen(atPage, ToMatches(origin, pi + 1, matches.value), QueryMatches(origin, pages, queryItem, contextWords, e, pi + 1));
    }
    assert QueryMatches(origin, pages, queryItem, contextWords, e, |pages|) == Success([]);
    assert finalResults + [] == finalResults;
    return Success(finalResults);
  }

  /** The push loop over the hits of one page. */
  method PushMatches(acc: seq<SearchMatch>, origin: Origin, pageNumber: nat, hits: seq<Hit>) returns (finalResults: seq<SearchMatch>)
    ensures finalResults == acc + ToMatches(origin, pageNumber, hits)
  {
    finalResults := acc;
    assert ToMatches(origin, pageNumber, hits[..0]) == [];
    for h := 0 to |hits|
      invariant finalResults == acc + ToMatches(origin, pageNumber, hits[..h])
    {
      ToMatchesSnoc(origin, pageNumber, hits, h);
      AppendAssoc(acc, ToMatches(origin, pageNumber, hits[..h]), [ToMatch(origin, pageNumber, hits[h])]);
      finalResults := finalResults + [ToMatch(origin, pageNumber, hits[h])];
    }
    assert hits[..|hits|] == hits;
  }
}
