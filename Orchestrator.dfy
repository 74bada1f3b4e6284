/**
 * `search_pdfs` and `find_pdf_files`: the search of a whole directory.
 *
 * The directory walk is an input: the entries it yields, each with its path,
 * whether it is a regular file, and the text of its pages when it is read as
 * a PDF. A PDF is an entry that is a file whose extension is exactly `pdf`.
 * Every PDF is searched with all the queries, one after the other; the
 * matches of each file are appended in the order of the walk, and a file
 * whose search fails contributes nothing.
 */
module Orchestrator {
  import opened Wrappers
  import opened Text
  import opened PageSearch
  import opened Zotero
  import opened QueryEngine

  /** One entry of the directory walk. */
  datatype DirEntry = DirEntry(path: string, isFile: bool, pages: Option<seq<string>>)

  // ---------------------------------------------------------------------------
  // Finding the PDFs

  /** `Path::extension`: the text after the last `.` of the file name, unless
      that dot starts the name or the name is `..`. */
  function Extension(name: string): (r: Option<string>)
    ensures r.Some? ==> |r.value| < |name| - 1 && name[|name| - |r.value| - 1] == '.'
    ensures r.Some? ==> r.value == name[|name| - |r.value|..] && '.' !in r.value
    ensures '.' !in name ==> r.None?
  {
    if name == ".." then None
    else
      match LastIndexOf(name, '.')
      case None => None
      case Some(i) => if i == 0 then None else Some(name[i + 1..])
  }

  /** The case-sensitive test of `find_pdf_files`: the extension is `pdf`. */
  predicate HasPdfExtension(path: string) {
    Extension(FileName(path)) == Some("pdf")
  }

  predicate IsPdfEntry(en: DirEntry) {
    en.isFile && HasPdfExtension(en.path)
  }

  function AsPdf(en: DirEntry): PdfFile {
    PdfFile(en.path, en.pages)
  }

  /** `find_pdf_files`: the walked entries that are PDF files, in walk order. */
  function FindPdfFiles(entries: seq<DirEntry>): (r: seq<PdfFile>)
    ensures |r| <= |entries|
    ensures forall f :: f in r <==> DirEntry(f.path, true, f.pages) in entries && HasPdfExtension(f.path)
  {
    if entries == [] then []
    else (if IsPdfEntry(entries[0]) then [AsPdf(entries[0])] else []) + FindPdfFiles(entries[1..])
  }

  /** A path names a PDF exactly when its file name is at least `x.pdf` long
      and ends in `.pdf`, in lower case: `.pdf` alone and `X.PDF` are not. */
  lemma PdfExtensionIsSuffix(path: string)
    ensures HasPdfExtension(path) <==>
      |FileName(path)| >= 5 && FileName(path)[|FileName(path)| - 4..] == ".pdf"
  {
    PdfExtensionOfName(FileName(path));
  }

  lemma PdfExtensionOfName(name: string)
    ensures Extension(name) == Some("pdf") <==> |name| >= 5 && name[|name| - 4..] == ".pdf"
  {
    if Extension(name) == Some("pdf") {
      PdfExtensionEndsName(name);
    }
    if |name| >= 5 && name[|name| - 4..] == ".pdf" {
      NameEndingPdfHasExtension(name);
    }
  }

  lemma PdfExtensionEndsName(name: string)
    requires Extension(name) == Some("pdf")
    ensures |name| >= 5 && name[|name| - 4..] == ".pdf"
  {
    var d := |name| - 4;
    assert name[d] == '.';
    assert name[d + 1..] == "pdf";
    assert name[d..] == [name[d]] + name[d + 1..];
  }

  lemma NameEndingPdfHasExtension(name: string)
    requires |name| >= 5 && name[|name| - 4..] == ".pdf"
    ensures Extension(name) == Some("pdf")
  {
    var d := |name| - 4;
    var tail := name[d..];
    assert tail == ".pdf";
    assert name[d] == tail[0] == '.';
    assert name[d + 1] == tail[1] && name[d + 2] == tail[2] && name[d + 3] == tail[3];
    assert name[d + 1..] == tail[1..] == "pdf";
    assert name[d] in name;
    var i := LastIndexOf(name, '.').value;
    assert i == d;
  }

  // ---------------------------------------------------------------------------
  // Searching every PDF, as a value

  /** The Zotero map the search uses: the one built, when a Zotero directory
      was given and reading it succeeded; a failure only costs the metadata. */
  function ZoteroMapOf(load: Option<Result<map<string, ZoteroMetadata>, string>>): (m: Option<map<string, ZoteroMetadata>>)
    ensures m.Some? <==> load.Some? && load.value.Success?
    ensures m.Some? ==> m.value == load.value.value
  {
    match load
    case None => None
    case Some(Success(zm)) => Some(zm)
    case Some(Failure(_)) => None
  }

  /** What one file contributes: its matches, or nothing when its search fails. */
  function FileMatches(file: PdfFile, queries: seq<QueryItem>, k: nat, e: RegexEngine,
                       zoteroMap: Option<map<string, ZoteroMetadata>>): seq<SearchMatch>
    requires ValidEngine(e) && SearchableQueries(queries)
  {
    match SearchFile(file, queries, k, e, zoteroMap)
    case Success(ms) => ms
    case Failure(_) => []
  }

  /** The contributions of the files, file by file. */
  function Contributions(files: seq<PdfFile>, queries: seq<QueryItem>, k: nat, e: RegexEngine,
                         zoteroMap: Option<map<string, ZoteroMetadata>>): (cs: seq<seq<SearchMatch>>)
    requires ValidEngine(e) && SearchableQueries(queries)
    ensures |cs| == |files|
  {
    Map(files, file requires ValidEngine(e) && SearchableQueries(queries) => FileMatches(file, queries, k, e, zoteroMap))
  }

  /** The matches of all the files, in order. */
  function AllMatches(files: seq<PdfFile>, queries: seq<QueryItem>, k: nat, e: RegexEngine,
                      zoteroMap: Option<map<string, ZoteroMetadata>>): seq<SearchMatch>
    requires ValidEngine(e) && SearchableQueries(queries)
  {
    Flatten(Contributions(files, queries, k, e, zoteroMap))
  }

  /** What `search_pdfs` returns (it always succeeds). The queries need to
      be searchable only when there is a PDF to search. */
  function SearchPdfsResult(queries: seq<QueryItem>, entries: seq<DirEntry>, k: nat, e: RegexEngine,
                            zoteroLoad: Option<Result<map<string, ZoteroMetadata>, string>>): seq<SearchMatch>
    requires ValidEngine(e) && (FindPdfFiles(entries) != [] ==> SearchableQueries(queries))
  {
    if queries == [] || FindPdfFiles(entries) == [] then []
    else AllMatches(FindPdfFiles(entries), queries, k, e, ZoteroMapOf(zoteroLoad))
  }

  // ---------------------------------------------------------------------------
  // Properties

  lemma ContributionsWithout(files: seq<PdfFile>, i: nat, queries: seq<QueryItem>, k: nat,
                             e: RegexEngine, zoteroMap: Option<map<string, ZoteroMetadata>>)
    requires ValidEngine(e) && SearchableQueries(queries) && i < |files|
    ensures Contributions(files[..i] + files[i + 1..], queries, k, e, zoteroMap)
      == Contributions(files, queries, k, e, zoteroMap)[..i] + Contributions(files, queries, k, e, zoteroMap)[i + 1..]
  {
    MapWithout(files, file requires ValidEngine(e) && SearchableQueries(queries) => FileMatches(file, queries, k, e, zoteroMap), i);
  }

  /** A file whose search fails is dropped without failing the others: the
      result is that of the same walk without it. */
  lemma FailingFileDropped(files: seq<PdfFile>, i: nat, queries: seq<QueryItem>, k: nat,
                           e: RegexEngine, zoteroMap: Option<map<string, ZoteroMetadata>>)
    requires ValidEngine(e) && SearchableQueries(queries) && i < |files|
    requires SearchFile(files[i], queries, k, e, zoteroMap).Failure?
    ensures AllMatches(files, queries, k, e, zoteroMap)
      == AllMatches(files[..i] + files[i + 1..], queries, k, e, zoteroMap)
  {
    var cs := Contributions(files, queries, k, e, zoteroMap);
    assert cs[i] == [];
    ContributionsWithout(files, i, queries, k, e, zoteroMap);
    FlattenWithoutEmpty(cs, i);
  }

  /** A match is reported exactly when some file's own search reports it. */
  lemma AllMatchesMembership(files: seq<PdfFile>, queries: seq<QueryItem>, k: nat, e: RegexEngine,
                             zoteroMap: Option<map<string, ZoteroMetadata>>, m: SearchMatch)
    requires ValidEngine(e) && SearchableQueries(queries)
    ensures m in AllMatches(files, queries, k, e, zoteroMap) <==>
      exists i :: 0 <= i < |files| && m in FileMatches(files[i], queries, k, e, zoteroMap)
  {
    var cs := Contributions(files, queries, k, e, zoteroMap);
    FlattenMembership(cs, m);
    if m in Flatten(cs) {
      var i :| 0 <= i < |cs| && m in cs[i];
      assert m in FileMatches(files[i], queries, k, e, zoteroMap);
    }
    if exists i :: 0 <= i < |files| && m in FileMatches(files[i], queries, k, e, zoteroMap) {
      var i :| 0 <= i < |files| && m in FileMatches(files[i], queries, k, e, zoteroMap);
      assert m in cs[i];
    }
  }

  /** Match `m` belongs to PDF entry `en` of the walk. */
  predicate FromPdfEntry(m: SearchMatch, en: DirEntry, entries: seq<DirEntry>) {
    && en in entries && IsPdfEntry(en) && en.pages.Some?
    && m.filePath == en.path && m.fileName == FileName(en.path)
    && 1 <= m.pageNumber <= |en.pages.value|
  }

  /** Every reported match comes from a PDF of the walk: it carries that
      file's path and name and a page number of that file, counted from 1. */
  lemma SearchPdfsMatches(queries: seq<QueryItem>, entries: seq<DirEntry>, k: nat, e: RegexEngine,
                          zoteroLoad: Option<Result<map<string, ZoteroMetadata>, string>>, m: SearchMatch)
    requires ValidEngine(e) && (FindPdfFiles(entries) != [] ==> SearchableQueries(queries))
    requires m in SearchPdfsResult(queries, entries, k, e, zoteroLoad)
    ensures exists en :: FromPdfEntry(m, en, entries)
  {
    var files := FindPdfFiles(entries);
    var zm := ZoteroMapOf(zoteroLoad);
    AllMatchesMembership(files, queries, k, e, zm, m);
    var i :| 0 <= i < |files| && m in FileMatches(files[i], queries, k, e, zm);
    assert files[i] in files;
    var en := DirEntry(files[i].path, true, files[i].pages);
    var r := SearchFile(files[i], queries, k, e, zm);
    assert r.Success? && m in r.value;
    SearchFileMatches(files[i], queries, k, e, zm);
    assert FromPdfEntry(m, en, entries);
  }

  // ---------------------------------------------------------------------------
  // The method

  /** `search_pdfs`, with the files searched one after the other. */
  method SearchPdfs(queries: seq<QueryItem>, entries: seq<DirEntry>, contextWords: nat, e: RegexEngine,
                    zoteroLoad: Option<Result<map<string, ZoteroMetadata>, string>>)
    returns (allMatches: seq<SearchMatch>)
    requires ValidEngine(e) && (FindPdfFiles(entries) != [] ==> SearchableQueries(queries))
    ensures queries == [] || FindPdfFiles(entries) == [] ==> allMatches == []
    ensures allMatches == SearchPdfsResult(queries, entries, contextWords, e, zoteroLoad)
  {
    if queries == [] {
      return [];
    }
    var pdfFiles := FindPdfFiles(entries);
    if pdfFiles == [] {
      return [];
    }
    var zoteroMap := ZoteroMapOf(zoteroLoad);
    allMatches := [];
    ghost var cs := Contributions(pdfFiles, queries, contextWords, e, zoteroMap);
    for i := 0 to |pdfFiles|
      invariant allMatches == Flatten(cs[..i])
    {
      var r := SearchPdfWithQueries(pdfFiles[i], queries, contextWords, e, zoteroMap);
      FlattenSnoc(cs, i);
      if r.Success? {
        allMatches := allMatches + r.value;
      }
    }
    assert cs[..|pdfFiles|] == cs;
  }
}
