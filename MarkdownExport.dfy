/**
 * `export_to_markdown`: the search results as a Markdown report.
 *
 * The report opens with a title and the number of matches. Then comes one
 * block per match, numbered from 1 in list order. A match whose file path
 * differs from the previous match's (the first match is compared with the
 * empty path) is preceded by a header naming its file, so the matches are
 * grouped by consecutive runs of the same path, not by file.
 */
module MarkdownExport {
  import opened Text
  import opened QueryEngine

  // ---------------------------------------------------------------------------
  // The report, as a value

  const TitleLine := "# PDF Search Results\n\n"
  const ContextLabel := "**Context:**\n\n"
  const Separator := "---\n\n"

  function CountLine(n: nat): string {
    "Total matches found: " + NatToString(n) + "\n\n"
  }

  function Preamble(n: nat): string {
    TitleLine + CountLine(n)
  }

  /** The file the report is in before match `i`: the empty path at first. */
  function PrevPath(ms: seq<SearchMatch>, i: nat): string
    requires i <= |ms|
  {
    if i == 0 then "" else ms[i - 1].filePath
  }

  /** Match `i` opens a new file section. */
  predicate StartsFile(ms: seq<SearchMatch>, i: nat)
    requires i < |ms|
  {
    ms[i].filePath != PrevPath(ms, i)
  }

  function FileLine(m: SearchMatch): string {
    "\n## File: `" + m.filePath + "`\n"
  }

  function FilenameLine(m: SearchMatch): string {
    "**Filename:** " + m.fileName + "\n\n"
  }

  function FileHeader(m: SearchMatch): string {
    FileLine(m) + FilenameLine(m)
  }

  /** The heading of match `i`, numbered `i + 1`. */
  function MatchHeading(i: nat, m: SearchMatch): string {
    "### Match " + NatToString(i + 1) + " (Page " + NatToString(m.pageNumber) + ")\n\n"
  }

  function PageLine(m: SearchMatch): string {
    "**Page:** " + NatToString(m.pageNumber) + "\n\n"
  }

  function ContextLine(m: SearchMatch): string {
    "..." + m.contextBefore + " **" + m.matchedText + "** " + m.contextAfter + "...\n\n"
  }

  function MatchBlock(i: nat, m: SearchMatch): string {
    MatchHeading(i, m) + PageLine(m) + ContextLabel + ContextLine(m) + Separator
  }

  /** The text for match `i`: a file header when it opens a new file, then
      its block. */
  function Entry(ms: seq<SearchMatch>, i: nat): string
    requires i < |ms|
  {
    (if StartsFile(ms, i) then FileHeader(ms[i]) else "") + MatchBlock(i, ms[i])
  }

  function EntryTexts(ms: seq<SearchMatch>): (es: seq<string>)
    ensures |es| == |ms|
  {
    seq(|ms|, i requires 0 <= i < |ms| => Entry(ms, i))
  }

  function Report(ms: seq<SearchMatch>): string {
    Preamble(|ms|) + Flatten(EntryTexts(ms))
  }

  /** The paths of the file headers, in report order. */
  function HeaderPaths(ms: seq<SearchMatch>, n: nat): seq<string>
    requires n <= |ms|
  {
    if n == 0 then []
    else HeaderPaths(ms, n - 1) + (if StartsFile(ms, n - 1) then [ms[n - 1].filePath] else [])
  }

  // ---------------------------------------------------------------------------
  // Properties

  /** The report opens with the title and the number of matches, whose digits
      read back as that number. */
  lemma ReportOpening(ms: seq<SearchMatch>)
    ensures |Preamble(|ms|)| <= |Report(ms)|
    ensures Report(ms)[..|Preamble(|ms|)|] == TitleLine + CountLine(|ms|)
    ensures ParseDigits(NatToString(|ms|)) == |ms|
  {
    var pre, rest := Preamble(|ms|), Flatten(EntryTexts(ms));
    assert (pre + rest)[..|pre|] == pre;
    ParseNatToString(|ms|);
  }

  /** The entry of each match sits between those of the matches before it
      and those after it: the report lists the matches in order, one entry
      each. */
  lemma ReportEntryAt(ms: seq<SearchMatch>, i: nat)
    requires i < |ms|
    ensures Report(ms) == Preamble(|ms|) + (Flatten(EntryTexts(ms)[..i]) + Entry(ms, i) + Flatten(EntryTexts(ms)[i + 1..]))
  {
    FlattenAt(EntryTexts(ms), i);
  }

  /** Every file of the matches gets a header, and every header names the
      file of some match. */
  lemma {:induction false} HeaderPathsCover(ms: seq<SearchMatch>, n: nat)
    requires n <= |ms|
    ensures forall i :: 0 <= i < n && ms[i].filePath != "" ==> ms[i].filePath in HeaderPaths(ms, n)
    ensures forall p :: p in HeaderPaths(ms, n) ==> exists i :: 0 <= i < n && ms[i].filePath == p
  {
    if n > 0 {
      HeaderPathsCover(ms, n - 1);
      var hp := HeaderPaths(ms, n - 1);
      assert hp <= HeaderPaths(ms, n);
      var p := ms[n - 1].filePath;
      if p != "" && !StartsFile(ms, n - 1) {
        assert p == ms[n - 2].filePath;
      }
    }
  }

  /** The matches of each file form one run of the list. */
  predicate Grouped(ms: seq<SearchMatch>) {
    forall i, j, l :: 0 <= i < j < l < |ms| && ms[i].filePath == ms[l].filePath ==> ms[j].filePath == ms[i].filePath
  }

  /** When the matches of each file are contiguous, as the search produces
      them, each file gets exactly one header. */
  lemma {:induction false} GroupedHeadersDistinct(ms: seq<SearchMatch>, n: nat)
    requires n <= |ms| && Grouped(ms)
    ensures forall a, b :: 0 <= a < b < |HeaderPaths(ms, n)| ==> HeaderPaths(ms, n)[a] != HeaderPaths(ms, n)[b]
  {
    if n > 0 {
      GroupedHeadersDistinct(ms, n - 1);
      var hp := HeaderPaths(ms, n - 1);
      if StartsFile(ms, n - 1) {
        var p := ms[n - 1].filePath;
        assert HeaderPaths(ms, n) == hp + [p];
        HeaderPathsCover(ms, n - 1);
        if p in hp {
          assert false;
        }
        assert forall a :: 0 <= a < |hp| ==> hp[a] != p;
      }
    }
  }

  /** The matches of a single file get a single header. */
  lemma {:induction false} OneFileOneHeader(ms: seq<SearchMatch>, n: nat, p: string)
    requires 0 < n <= |ms| && p != ""
    requires forall i :: 0 <= i < |ms| ==> ms[i].filePath == p
    ensures HeaderPaths(ms, n) == [p]
  {
    if n > 1 {
      OneFileOneHeader(ms, n - 1, p);
    }
  }

  // ---------------------------------------------------------------------------
  // The method

  /** `export_to_markdown`. */
  method ExportToMarkdown(ms: seq<SearchMatch>) returns (markdown: string)
    ensures markdown == Report(ms)
  {
    markdown := TitleLine;
    markdown := markdown + CountLine(|ms|);
    var currentFile := "";
    ghost var es := EntryTexts(ms);
    for idx := 0 to |ms|
      invariant markdown == Preamble(|ms|) + Flatten(es[..idx])
      invariant currentFile == PrevPath(ms, idx)
    {
      var m := ms[idx];
      ghost var before := markdown;
      ghost var header := if StartsFile(ms, idx) then FileHeader(m) else "";
      if m.filePath != currentFile {
        currentFile := m.filePath;
        markdown := markdown + FileLine(m);
        markdown := markdown + FilenameLine(m);
        AppendAssoc(before, FileLine(m), FilenameLine(m));
      }
      assert markdown == before + header;
      markdown := markdown + MatchHeading(idx, m);
      markdown := markdown + PageLine(m);
      markdown := markdown + ContextLabel;
      markdown := markdown + ContextLine(m);
      markdown := markdown + Separator;
      AppendFive(before + header, MatchHeading(idx, m), PageLine(m), ContextLabel, ContextLine(m), Separator);
      AppendAssoc(before, header, MatchBlock(idx, m));
      assert markdown == before + Entry(ms, idx);
      FlattenSnoc(es, idx);
      AppendAssoc(Preamble(|ms|), Flatten(es[..idx]), es[idx]);
    }
    assert es[..|ms|] == es;
  }
}
