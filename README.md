# PDF context search — a verified model of the search engine

This project models the search engine of a desktop PDF search tool in Dafny.
It covers `src-tauri/src/pdf_search.rs`:

- the text normalization that removes whitespace and hyphens, so that text
  whose PDF spacing is broken still matches;
- the page search, which returns one hit per non-overlapping, case-insensitive
  occurrence of the query in the normalized page, with some words of context
  on each side;
- the compound-query rule of one PDF. Filter queries gate the whole document.
  Parallel queries produce the matches. With no parallel query, the first
  query is searched;
- the search of a directory of PDFs, where a failing file is dropped;
- the pure part of reading Zotero's library: the attachment file name, the
  parent item, the citekey, the link, the creators and the year;
- the Markdown report of the matches.

Modules, one per file:

| File | Contents |
|---|---|
| `Wrappers.dfy` | `Option` and `Result` |
| `Text.dfy` | normalization, whitespace splitting, ASCII lower case, substring search, decimal numbers, flattening |
| `PageSearch.dfy` | `search_in_page` |
| `Zotero.dfy` | `build_zotero_map`, `get_item_creators`, `extract_year` |
| `QueryEngine.dfy` | `search_pdf_with_queries` |
| `Orchestrator.dfy` | `search_pdfs` and the `.pdf` test of `find_pdf_files` |
| `MarkdownExport.dfy` | `export_to_markdown` |

Each loop of the functions below is a method proved against a function that
states the result as a value:

| Method | Specified by |
|---|---|
| `SearchInPage` | `PageHits` |
| `SearchPdfWithQueries` | `SearchFile` |
| `SearchPdfs` | `SearchPdfsResult` |
| `FormatCreators` | `Authors` |
| `BuildZoteroMap` | `ZoteroMap` |
| `ExportToMarkdown` | `Report` |

The loops of `find_pdf_files` and `extract_year` are modelled as recursive
functions, since they only compute a value. The properties the program
promises are lemmas about those functions.

Inputs stand in for I/O:

- a PDF is its path plus either the text of its pages or nothing, when
  `lopdf` cannot load it;
- the directory walk is a sequence of entries;
- the Zotero database is an `ItemDb` value plus the attachment rows of the
  query;
- the regex crate is a `RegexEngine` value. It says whether a pattern
  compiles and which spans `find_iter` yields. The model assumes only that
  those spans are ordered, non-overlapping and inside the text.

## Model

| member | source | states |
|---|---|---|
| Text.Normalize | src-tauri/src/pdf_search.rs:298-311 | normalization never lengthens the text |
| Text.NormalizeStrips | src-tauri/src/pdf_search.rs:298-311 | none of the seven whitespace and four hyphen characters survives normalization, and a text without them is left unchanged |
| Text.NormalizeIdempotent | src-tauri/src/pdf_search.rs:298-311 | normalizing twice is normalizing once |
| Text.NormalizeConcat | src-tauri/src/pdf_search.rs:298-311 | normalization distributes over concatenation, so it works character by character and keeps order |
| Text.NormalizeKeepsOthers | src-tauri/src/pdf_search.rs:298-311 | every character outside the eleven stripped ones keeps its number of occurrences; every stripped one has none left |
| Text.WordLength | src-tauri/src/pdf_search.rs:290-294 | the first word of a text ends at its first whitespace character |
| Text.SplitWords | src-tauri/src/pdf_search.rs:290-294 | `split_whitespace` yields only non-empty words without whitespace (which words, is given by `SplitWordsContent` and `SplitAtWhitespace`) |
| Text.WordLengthOfWord | src-tauri/src/pdf_search.rs:290-294 | a word followed by whitespace or by nothing is read back whole |
| Text.WordIsOneWord | src-tauri/src/pdf_search.rs:290-294 | splitting a single word yields that word alone |
| Text.SplitJoin | src-tauri/src/pdf_search.rs:290-294 | splitting words that were joined with a space gives the words back |
| Text.RemoveWs | src-tauri/src/pdf_search.rs:290-294 | the characters of a text that are not whitespace: none of them is whitespace |
| Text.WordLengthBefore | src-tauri/src/pdf_search.rs:290-294 | proof step: a first word is not lengthened by a following text that starts with whitespace |
| Text.SplitWordsContent | src-tauri/src/pdf_search.rs:290-294 | the words, concatenated, are exactly the non-whitespace characters of the text in order, so splitting loses and reorders nothing |
| Text.SplitAtWhitespace | src-tauri/src/pdf_search.rs:290-294 | every whitespace character, of any kind and in any run, separates words: the words of `a + [c] + b` are those of `a` then those of `b` |
| Text.LastN | src-tauri/src/pdf_search.rs:340-347 | `rev().take(k).rev()` keeps min(k, n) elements |
| Text.LastNIsSuffix | src-tauri/src/pdf_search.rs:340-347 | those elements are the last ones, in order |
| Text.FirstN | src-tauri/src/pdf_search.rs:349-354 | `take(k)` keeps min(k, n) elements |
| Text.FirstNIsPrefix | src-tauri/src/pdf_search.rs:349-354 | those elements are the first ones, in order |
| Text.Lower | src-tauri/src/pdf_search.rs:360-364 | ASCII `to_lowercase` keeps the length, leaves no upper-case letter, and keeps every character that is not one |
| Text.LowerSlice | src-tauri/src/pdf_search.rs:360-364 | lowercasing commutes with slicing, so positions in the lowercased page are positions in the page |
| Text.Find | src-tauri/src/pdf_search.rs:367 | a position returned by `str::find` leaves room for the needle |
| Text.FindIsFirst | src-tauri/src/pdf_search.rs:367 | `find` returns the first occurrence, and returns nothing only when there is no occurrence |
| Text.FindEmpty | src-tauri/src/pdf_search.rs:367 | `find` of the empty needle returns position 0 |
| Text.NatToString | src-tauri/src/pdf_search.rs:259 | a decimal rendering is non-empty, made of digits, and has no leading zero |
| Text.ParseNatToString | src-tauri/src/pdf_search.rs:259 | parsing a rendered number gives the number back |
| Text.LeadingDigitPositive | src-tauri/src/pdf_search.rs:256-258 | digits with a non-zero leading digit denote a positive number |
| Text.NatToStringParse | src-tauri/src/pdf_search.rs:256-259 | rendering a parsed digit string without a leading zero gives the string back |
| Text.FlattenAppend | src-tauri/src/pdf_search.rs:532-533 | flattening distributes over concatenation |
| Text.FlattenMembership | src-tauri/src/pdf_search.rs:532-533 | an element is in the flattened list exactly when it is in one of the parts |
| Text.FlattenWithoutEmpty | src-tauri/src/pdf_search.rs:528-533 | dropping an empty part leaves the flattened list unchanged |
| Text.FlattenSnoc | src-tauri/src/pdf_search.rs:532-533 | proof step: flattening one more part appends that part |
| Text.FlattenAt | src-tauri/src/pdf_search.rs:544-559 | the flattened list is the parts before i, part i, then the parts after i |
| Text.Map | src-tauri/src/pdf_search.rs:519-531 | mapping over the files keeps one result per file |
| Text.MapWithout | src-tauri/src/pdf_search.rs:519-531 | mapping a list without element i gives the mapped list without its element i |
| PageSearch.RegexPattern | src-tauri/src/pdf_search.rs:327 | the pattern is the `(?i)` flag followed by the normalized query, which reads back from it |
| PageSearch.ContextBefore | src-tauri/src/pdf_search.rs:378-388 | the context before a match is empty when k = 0 or when there is no word before it (its words are given by `ContextBeforeWords`) |
| PageSearch.ContextAfter | src-tauri/src/pdf_search.rs:379-395 | the context after a match is empty when k = 0 or when there is no word after it (its words are given by `ContextAfterWords`) |
| PageSearch.ContextBeforeWords | src-tauri/src/pdf_search.rs:378-388 | the context before a match is the last min(k, n) words of the text before it, joined by spaces, and is empty when k = 0 |
| PageSearch.ContextAfterWords | src-tauri/src/pdf_search.rs:379-395 | the context after a match is the first min(k, n) words of the text after it, and is empty when k = 0 |
| PageSearch.ContextOfUnspacedText | src-tauri/src/pdf_search.rs:374-395 | a text without whitespace is a single word, so for k >= 1 it is the whole context |
| PageSearch.NormalizedPageHasNoWhitespace | src-tauri/src/pdf_search.rs:323 | when the only whitespace of a page is what normalization strips, the normalized page has none |
| PageSearch.NormalizedContexts | src-tauri/src/pdf_search.rs:374-395 | on such a page each context is the whole normalized text on that side of the match when k >= 1 and that side is not empty, and the empty text otherwise |
| PageSearch.Occurrences | src-tauri/src/pdf_search.rs:366-401 | the positions the literal loop reports, from a cursor on; every one ends inside the page (soundness and completeness are `OccurrencesSound` and `OccurrencesComplete`) |
| PageSearch.FindFrom | src-tauri/src/pdf_search.rs:367-368 | a hit of `find` from the cursor is an occurrence at cursor plus offset |
| PageSearch.OccurrencesSound | src-tauri/src/pdf_search.rs:366-401 | every position the loop reports is an occurrence, and each one starts at or after the end of the one before |
| PageSearch.OccurrencesComplete | src-tauri/src/pdf_search.rs:366-401 | every occurrence either is reported or overlaps a reported one |
| PageSearch.OccurrencesStep | src-tauri/src/pdf_search.rs:367-400 | proof step: one turn of the loop: a found occurrence is reported, and the search resumes at its end |
| PageSearch.OccurrencesTurn | src-tauri/src/pdf_search.rs:367-400 | one turn of the loop keeps the occurrences reported so far plus those still ahead equal to all occurrences |
| PageSearch.OccurrencesWithin | src-tauri/src/pdf_search.rs:369-372 | every reported occurrence ends inside the page |
| PageSearch.HitsAt | src-tauri/src/pdf_search.rs:366-401 | one hit per reported position |
| PageSearch.HitsAtIndex | src-tauri/src/pdf_search.rs:372-397 | hit i is cut from the normalized page at position i |
| PageSearch.HitsAtSnoc | src-tauri/src/pdf_search.rs:397 | proof step: pushing a hit for one more position appends that hit |
| PageSearch.EmptyQueryNeverAdvances | src-tauri/src/pdf_search.rs:366-400 | with an empty normalized query, `find` from any cursor returns offset 0, so the cursor never moves |
| PageSearch.LowerOfOccurrence | src-tauri/src/pdf_search.rs:364-372 | the page text at a position found in the lowercased page lowercases to the query |
| PageSearch.LiteralHits | src-tauri/src/pdf_search.rs:358-402 | the literal branch as a value: one hit per occurrence of the lowercased query in the lowercased page |
| PageSearch.LiteralHitAt | src-tauri/src/pdf_search.rs:366-401 | the literal hits match the occurrences one to one; each matched text is the page slice at its occurrence and lowercases to the lowercased query |
| PageSearch.LiteralHitsAreOccurrences | src-tauri/src/pdf_search.rs:358-402 | the literal search reports one hit per position; positions increase strictly and do not overlap; each matched text is the slice of the normalized page at its position, of the query's length, and lowercases to the lowercased normalized query |
| PageSearch.LiteralHitsComplete | src-tauri/src/pdf_search.rs:358-402 | every case-insensitive occurrence of the normalized query in the normalized page is reported or overlaps a reported one |
| PageSearch.MakeHitContexts | src-tauri/src/pdf_search.rs:372-397 | a hit's matched text is the page slice, and its contexts are the last and first k words around it |
| PageSearch.LiteralHitContexts | src-tauri/src/pdf_search.rs:374-395 | the contexts of every literal hit are taken from the normalized page on either side of its occurrence |
| PageSearch.PageHitsFailure | src-tauri/src/pdf_search.rs:325-327 | the page search fails exactly when it is a regex search whose pattern does not compile |
| PageSearch.SearchInPage | src-tauri/src/pdf_search.rs:313-405 | `search_in_page` returns exactly `PageHits`: the invalid-regex error, one hit per regex span, or the literal hits |
| PageSearch.LiteralSearch | src-tauri/src/pdf_search.rs:358-402 | the `while` loop returns one hit per occurrence found from cursor 0, in order; its invariant is that the reported positions plus those still ahead are all the occurrences |
| PageSearch.CutHit | src-tauri/src/pdf_search.rs:371-397 | the matched text of the hit built at a position is the slice of the normalized page there, and its contexts are the last and first at most k words of the page on either side (`ContextsAround`) |
| Zotero.LastIndexOf | src-tauri/src/pdf_search.rs:130 | `rfind` returns the last position of the character, or nothing when it is absent |
| Zotero.AfterLast | src-tauri/src/pdf_search.rs:130-134 | the text after the last separator is a suffix free of the separator; the whole text when there is none |
| Zotero.AttachmentFileName | src-tauri/src/pdf_search.rs:130-134 | the file name of an attachment path is a suffix without `:`, and without `/` when the path has no `:` |
| Zotero.AfterLastOf | src-tauri/src/pdf_search.rs:130-134 | the text after the last separator of `p + sep + name` is `name` |
| Zotero.AttachmentFileNameRoundTrip | src-tauri/src/pdf_search.rs:130-134 | `storage:name` and `dir/name` both give `name` back |
| Zotero.ItemIdentity | src-tauri/src/pdf_search.rs:140-144 | the parent item is used when both its id and key are present, otherwise the attachment itself |
| Zotero.Citekey | src-tauri/src/pdf_search.rs:153-158 | the Better BibTeX citekey when there is one, otherwise the item key |
| Zotero.ZoteroLink | src-tauri/src/pdf_search.rs:167 | the link is `zotero://select/library/items/` followed by the key |
| Zotero.ZoteroLinkKey | src-tauri/src/pdf_search.rs:167 | the key can be read back from the link |
| Zotero.ZoteroLinkInjective | src-tauri/src/pdf_search.rs:167 | distinct item keys give distinct links |
| Zotero.ItemField | src-tauri/src/pdf_search.rs:184-198 | a field has a value exactly when the item has that field |
| Zotero.CreatorName | src-tauri/src/pdf_search.rs:220-225 | `first last` when both names are present, the one present otherwise, and nothing (the row is skipped) when both are missing |
| Zotero.CreatorNames | src-tauri/src/pdf_search.rs:218-228 | at most one name per creator row |
| Zotero.NamedRows | src-tauri/src/pdf_search.rs:218-228 | the indices of the rows with a name, increasing, and all of them |
| Zotero.CreatorNamesAreNamedRows | src-tauri/src/pdf_search.rs:218-228 | the names are those of the named rows, in row order |
| Zotero.NamedRowsPrefix | src-tauri/src/pdf_search.rs:218-228 | the named rows of a prefix are those of the whole that lie in the prefix |
| Zotero.AuthorsNone | src-tauri/src/pdf_search.rs:230-234 | there are no authors exactly when no row has a name |
| Zotero.FormatCreators | src-tauri/src/pdf_search.rs:218-234 | the loop returns `Authors(rows)`: the names of the named rows joined with `, `, or nothing when there are none |
| Zotero.DigitParts | src-tauri/src/pdf_search.rs:255 | splitting on non-digits yields at least one piece, each all digits |
| Zotero.DigitRunLength | src-tauri/src/pdf_search.rs:255 | a piece runs up to the first non-digit |
| Zotero.YearLeadingDigit | src-tauri/src/pdf_search.rs:256-258 | a four-digit piece lies in 1000..9999 exactly when its first digit is not `0` |
| Zotero.FirstYearIsFirstPiece | src-tauri/src/pdf_search.rs:255-263 | no year is found exactly when no piece is a year; a found year is the first piece that is one |
| Zotero.FirstYear | src-tauri/src/pdf_search.rs:255-263 | no piece gives no year, and a year found is a non-empty digit string |
| Zotero.ExtractYear | src-tauri/src/pdf_search.rs:252-266 | no date gives no year, and a year found is a non-empty digit string (which piece it is, is `ExtractYearSpec`) |
| Zotero.ExtractYearSpec | src-tauri/src/pdf_search.rs:252-266 | no date gives no year; otherwise the year is the first four-digit piece in 1000..9999, rendered back unchanged |
| Zotero.MaskSeparators | src-tauri/src/pdf_search.rs:255 | masking every non-digit keeps the length |
| Zotero.DigitPartsJoin | src-tauri/src/pdf_search.rs:255 | the pieces joined by one separator give back the date with every non-digit masked, so no character is lost or reordered |
| Zotero.MaskOfDigits | src-tauri/src/pdf_search.rs:255 | a date of digits only is unchanged by masking |
| Zotero.MaskSplit | src-tauri/src/pdf_search.rs:255 | masking splits at the first non-digit |
| Zotero.Metadata | src-tauri/src/pdf_search.rs:146-170 | the stored metadata links to the chosen item and keeps the attachment key |
| Zotero.StoreRowsKeysStored | src-tauri/src/pdf_search.rs:127-172 | every key of the map is the file name of some readable row |
| Zotero.StoreRowsKeysPresent | src-tauri/src/pdf_search.rs:127-172 | every readable row's file name is a key of the map |
| Zotero.StoreRowsLastWins | src-tauri/src/pdf_search.rs:160-170 | under a file name the map holds the value of the last row with that name |
| Zotero.ZoteroMapKeys | src-tauri/src/pdf_search.rs:127-172 | a file name is in the map exactly when some readable row has it; unreadable rows are skipped |
| Zotero.ZoteroMapLastRowWins | src-tauri/src/pdf_search.rs:160-170 | the metadata stored under a file name comes from the last row with that name |
| Zotero.BuildZoteroMap | src-tauri/src/pdf_search.rs:127-172 | the row loop builds `ZoteroMap(db, rows)` |
| QueryEngine.OfType | src-tauri/src/pdf_search.rs:431-436 | selection by type keeps exactly the queries of that type |
| QueryEngine.QueriesToSearch | src-tauri/src/pdf_search.rs:463-467 | only queries of the list are searched |
| QueryEngine.FileName | src-tauri/src/pdf_search.rs:416-420 | the file name is the suffix of the path after its last `/` |
| QueryEngine.Lookup | src-tauri/src/pdf_search.rs:422-423 | metadata is found exactly when there is a map holding the file name |
| QueryEngine.OriginOf | src-tauri/src/pdf_search.rs:416-428 | every match of a file carries its path, its name, its metadata, and a link exactly when it has metadata |
| QueryEngine.ToMatches | src-tauri/src/pdf_search.rs:473-484 | one match per hit |
| QueryEngine.ThenNothing | src-tauri/src/pdf_search.rs:460 | proof step: collection starts from the empty list |
| QueryEngine.ThenThen | src-tauri/src/pdf_search.rs:469-486 | proof step: appending in two steps is appending once |
| QueryEngine.ToMatchesSnoc | src-tauri/src/pdf_search.rs:473-484 | proof step: pushing one more hit appends its match |
| QueryEngine.FilterStep | src-tauri/src/pdf_search.rs:440-456 | proof step: one turn of the filter loop: that filter's search, then the next filters |
| QueryEngine.CollectStep | src-tauri/src/pdf_search.rs:469-486 | proof step: one turn of the query loop: that query's matches, then the next queries' |
| QueryEngine.FoundOnSomePageMeaning | src-tauri/src/pdf_search.rs:440-450 | a filter that cannot fail is found exactly when some page has a match |
| QueryEngine.PassesFiltersMeaning | src-tauri/src/pdf_search.rs:438-456 | when no filter can fail, the document passes exactly when every filter matches on some page |
| QueryEngine.MatchesSomewhereEach | src-tauri/src/pdf_search.rs:440-456 | every filter matches somewhere exactly when the first does and so do the rest |
| QueryEngine.FilterMissYieldsNothing | src-tauri/src/pdf_search.rs:452-455 | a document in which some filter matches on no page yields no matches |
| QueryEngine.OfTypeKeepsAll | src-tauri/src/pdf_search.rs:431-436 | selecting by type keeps a list of that type whole |
| QueryEngine.OfTypeIdempotent | src-tauri/src/pdf_search.rs:431-436 | selecting by type twice is selecting once |
| QueryEngine.OfTypeOther | src-tauri/src/pdf_search.rs:431-436 | no query is both parallel and filter |
| QueryEngine.FiltersDoNotAdd | src-tauri/src/pdf_search.rs:438-467 | when a parallel query exists and the filters pass, the result equals that of the parallel queries alone: filters never add matches |
| QueryEngine.NoParallelSearchesFirst | src-tauri/src/pdf_search.rs:463-467 | with no parallel query, the result is the matches of the first query alone, even when it is a filter |
| QueryEngine.CollectOne | src-tauri/src/pdf_search.rs:469-486 | collecting a single query gives that query's matches |
| QueryEngine.QueryMatchesNonEmpty | src-tauri/src/pdf_search.rs:469-486 | a query that cannot fail and matches on some page yields matches |
| QueryEngine.QueryMatchesNeverFail | src-tauri/src/pdf_search.rs:469-472 | a query that cannot fail yields its matches without error |
| QueryEngine.OnPagesPrepend | src-tauri/src/pdf_search.rs:470-485 | the matches of one page put before those of the later pages keep page order |
| QueryEngine.QueryMatchesPages | src-tauri/src/pdf_search.rs:470-485 | the matches of one query are ordered by page, numbered 1 up to the page count, and carry the file's data |
| QueryEngine.CollectMatchesPages | src-tauri/src/pdf_search.rs:469-486 | every match lies on a page numbered 1 up to the page count and carries the file's data |
| QueryEngine.SearchFileMatches | src-tauri/src/pdf_search.rs:407-489 | every reported match carries the file's path, name and Zotero metadata and a page number 1 up to the page count |
| QueryEngine.CollectNeverFails | src-tauri/src/pdf_search.rs:469-486 | queries that cannot fail never make the collection fail |
| QueryEngine.SearchFileFailure | src-tauri/src/pdf_search.rs:407-489 | with queries that cannot fail, the file search fails exactly when the PDF cannot be loaded |
| QueryEngine.SearchPdfWithQueries | src-tauri/src/pdf_search.rs:407-489 | the method returns `SearchFile`: the load error; nothing when a filter misses; otherwise the matches of the queries to search, by query, then page, then position; or the first page-search error |
| QueryEngine.CollectQueryMatches | src-tauri/src/pdf_search.rs:460-488 | the query loop returns `CollectMatches` for the queries to search |
| QueryEngine.CollectQuery | src-tauri/src/pdf_search.rs:470-485 | the page loop of one query appends that query's matches, or stops at the first error |
| QueryEngine.PushMatches | src-tauri/src/pdf_search.rs:473-484 | the push loop appends one match per hit, in hit order |
| Orchestrator.Extension | src-tauri/src/pdf_search.rs:68 | `Path::extension` is the text after the last dot of the name, unless that dot starts the name |
| Orchestrator.FindPdfFiles | src-tauri/src/pdf_search.rs:59-74 | the PDFs are exactly the walked entries that are files with extension `pdf` |
| Orchestrator.PdfExtensionIsSuffix | src-tauri/src/pdf_search.rs:68 | a path is a PDF exactly when its file name is at least 5 characters long and ends in lower-case `.pdf` |
| Orchestrator.PdfExtensionOfName | src-tauri/src/pdf_search.rs:68 | a name has extension `pdf` exactly when it ends in `.pdf` after at least one character |
| Orchestrator.PdfExtensionEndsName | src-tauri/src/pdf_search.rs:68 | extension `pdf` implies the name ends in `.pdf` |
| Orchestrator.NameEndingPdfHasExtension | src-tauri/src/pdf_search.rs:68 | a name ending in `.pdf` after at least one character has extension `pdf` |
| Orchestrator.ZoteroMapOf | src-tauri/src/pdf_search.rs:505-516 | the Zotero map is used only when one was asked for and loading it succeeded |
| Orchestrator.Contributions | src-tauri/src/pdf_search.rs:519-531 | one contribution per PDF |
| Orchestrator.ContributionsWithout | src-tauri/src/pdf_search.rs:519-531 | the contributions without file i are those of the files without file i |
| Orchestrator.FailingFileDropped | src-tauri/src/pdf_search.rs:528-529 | a file whose search fails is dropped without failing the others: the result equals that of the walk without it |
| Orchestrator.AllMatchesMembership | src-tauri/src/pdf_search.rs:519-533 | a match is reported exactly when some file's own search reports it |
| Orchestrator.SearchPdfsMatches | src-tauri/src/pdf_search.rs:491-536 | every reported match comes from a PDF of the walk and carries its path, its name and one of its page numbers |
| Orchestrator.SearchPdfs | src-tauri/src/pdf_search.rs:491-536 | an empty query list or a walk without PDFs yields nothing; otherwise the result is the concatenation, in walk order, of every PDF's matches, with failing files contributing nothing |
| MarkdownExport.ReportOpening | src-tauri/src/pdf_search.rs:539-540 | the report begins with the title and `Total matches found: N`, whose digits read back as the number of matches |
| MarkdownExport.ReportEntryAt | src-tauri/src/pdf_search.rs:544-559 | the report holds one entry per match, in list order, each after the entries of the matches before it |
| MarkdownExport.HeaderPathsCover | src-tauri/src/pdf_search.rs:542-549 | every file path of the matches gets a header, except the empty path, and every header names a file of the matches |
| MarkdownExport.GroupedHeadersDistinct | src-tauri/src/pdf_search.rs:542-549 | when the matches of each file are contiguous, no file gets two headers |
| MarkdownExport.OneFileOneHeader | src-tauri/src/pdf_search.rs:542-549 | the matches of a single file get one header |
| MarkdownExport.ExportToMarkdown | src-tauri/src/pdf_search.rs:538-562 | the method builds `Report(ms)`: the preamble; then for each match, a file header when its path differs from the previous match's (the first is compared with the empty path); then `### Match i (Page p)` with 1-based i, the page line, the context line and a `---` separator |

## Left out

- PDF loading and text extraction (`extract_text_from_pdf`, lines 268-288) are not modelled. A PDF is given as its path plus the text of its pages, or nothing when `lopdf` cannot load it. A page whose text cannot be extracted is given as the empty text. `LoadFailed` stands for the load error.
- The regex crate is not modelled. A `RegexEngine` value says whether `(?i)` followed by the normalized query compiles, and which spans `find_iter` yields. Regex semantics, including case folding, are not modelled. The model assumes only that the spans are ordered, non-overlapping and inside the text.
- SQLite is not modelled: opening, querying, the temporary copies of `zotero.sqlite` and `better-bibtex.sqlite` and their removal (lines 77-125, 174-181, 184-248). The model starts from an `ItemDb` value and the attachment rows. A missing database, and every error the `?` operator propagates before the row loop, are only the `Failure` input of `Orchestrator.ZoteroMapOf`. `get_item_field`, `get_item_creators` and `get_better_bibtex_citekey` are modelled as lookups that succeed, since the source discards their errors with `.ok()`.
- The directory walk of `find_pdf_files` is an input. Entries that `walkdir` cannot read are already filtered out, and the `Err` of `find_pdf_files` never occurs. Following symbolic links, and `is_file` on the file system, are part of the input.
- Rayon parallelism is not modelled. `SearchPdfs` searches the files one after the other and concatenates in walk order, which is what `par_iter().filter_map().flatten().collect()` produces.
- The warning printed with `eprintln!` when the Zotero map cannot be built is left out. It has no effect on the result.
- Text is `seq<char>` with ASCII lower case. `to_lowercase` can change the length of non-ASCII text, and then the byte positions found in the lowercased page no longer fit the normalized page. Byte offsets and char boundaries are not modelled: a position is a character index.
- `Zotero.DigitParts`: `is_numeric` is modelled on the ASCII digits only. Other Unicode numerals would split the date differently and make `parse` fail.
- `Zotero.ExtractYear`: `parse::<i32>` of a four-digit piece cannot overflow, so only the range test 1000..9999 is modelled.
- `QueryEngine.FileName`: only the Unix `/` separator is modelled. `file_name()` of a path ending in `..` or `/` is not modelled, because every walked PDF ends in a file name.
- `PageSearch.SearchInPage` requires a literal query that is not empty after normalization (`Searchable`). On an empty one the source loop never ends: `find("")` returns the cursor, so `search_start` never moves (`PageSearch.EmptyQueryNeverAdvances`). Regex queries may be empty.
- `QueryEngine.SearchPdfWithQueries` requires this only of the queries it may search: the filter queries and the queries to search (`SearchableQueries`). Other queries may be empty. The requirement is still broader than what the source needs. The source never searches the filters after one that misses, and it searches nothing in a PDF that cannot be loaded or has no pages.
- `Orchestrator.SearchPdfs` requires `SearchableQueries` only when the walk yields a PDF. It inherits the same broadening from `QueryEngine.SearchPdfWithQueries` for each PDF.
- `search_pdfs` always returns `Ok`, so `Orchestrator.SearchPdfs` returns the list of matches.
- The `color` field of `QueryItem` and the `directory` and `zotero_path` strings of `SearchParams` are not modelled. The directory is the walk given as input. `zotero_path` is the optional result of building the map.
- `PageSearch.LiteralSearch`, `PageSearch.CutHit`, `QueryEngine.CollectQueryMatches`, `QueryEngine.CollectQuery` and `QueryEngine.PushMatches` are the inner loops and statements of `search_in_page` and `search_pdf_with_queries`, split off as methods of their own. Their statements are those of the source.
- The code is followed where it differs from the behaviour described around it:
  - there are no page ranges and no case-sensitive mode;
  - hits are positions in the normalized page, with no mapping back to the original text;
  - there is one result per occurrence, not per page;
  - an invalid regex makes only that file fail, and that file is dropped;
  - the `.pdf` test is case-sensitive;
  - a list of filter queries only searches its first query and reports that filter's own matches.
- `src-tauri/src/ferrules_manager.rs` and `src-tauri/src/lib.rs` are not part of this model. They run an external program and register the application's commands.
