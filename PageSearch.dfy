/**
 * `search_in_page`: every occurrence of one query on one page, each with the
 * words around it.
 *
 * The query and the page are both normalized. A literal query is then
 * lower-cased and found over and over in the lower-cased page, each search
 * starting where the previous occurrence ended. A regex query is handed to
 * the regex engine, which is abstract here: it either refuses the pattern or
 * returns the spans it matched. Matched text and context are both cut from
 * the normalized page.
 */
module PageSearch {
  import opened Wrappers
  import opened Text

  /** One occurrence, as the tuple (context_before, matched_text, context_after). */
  datatype Hit = Hit(contextBefore: string, matchedText: string, contextAfter: string)

  /** The per-file errors: a PDF that cannot be loaded, or a pattern that the
      regex engine refuses. */
  datatype SearchError = LoadFailed(path: string) | InvalidRegex(pattern: string)

  /** A match of the regex engine, as byte offsets `start..end` into the haystack. */
  datatype Span = Span(start: nat, end: nat)

  /** The regex crate, abstracted: whether `Regex::new` accepts a pattern, and
      what `find_iter` returns for a pattern and a haystack. */
  datatype RegexEngine = RegexEngine(compiles: string -> bool, findIter: (string, string) -> seq<Span>)

  /** Spans in order, not overlapping, inside a haystack of length `n`. */
  predicate SpansWithin(spans: seq<Span>, n: nat) {
    && (forall i :: 0 <= i < |spans| ==> spans[i].start <= spans[i].end <= n)
    && (forall i, j :: 0 <= i < j < |spans| ==> spans[i].end <= spans[j].start)
  }

  /** What the model assumes of the regex crate: `find_iter` only reports
      non-overlapping spans inside the haystack, in order. */
  ghost predicate ValidEngine(e: RegexEngine) {
    forall pattern, hay :: SpansWithin(e.findIter(pattern, hay), |hay|)
  }

  /** The pattern compiled for a regex query: case-insensitive by default. */
  function RegexPattern(normalizedQuery: string): (pattern: string)
    ensures |pattern| == |normalizedQuery| + 4
    ensures pattern[..4] == "(?i)" && pattern[4..] == normalizedQuery
  {
    "(?i)" + normalizedQuery
  }

  // ---------------------------------------------------------------------------
  // Context windows

  /** The last at most `k` words of the text before a match, joined by spaces. */
  function ContextBefore(before: string, k: nat): (context: string)
    ensures k == 0 || SplitWords(before) == [] ==> context == []
  {
    Join(LastN(SplitWords(before), k), " ")
  }

  /** The first at most `k` words of the text after a match, joined by spaces. */
  function ContextAfter(after: string, k: nat): (context: string)
    ensures k == 0 || SplitWords(after) == [] ==> context == []
  {
    Join(FirstN(SplitWords(after), k), " ")
  }

  /** `context_before` holds exactly the last `min(k, n)` of the `n` words
      before the match, in their order. */
  lemma ContextBeforeWords(before: string, k: nat)
    ensures var ws := SplitWords(before);
      var m := if k < |ws| then k else |ws|;
      SplitWords(ContextBefore(before, k)) == ws[|ws| - m..]
    ensures k == 0 ==> ContextBefore(before, k) == []
  {
    var ws := SplitWords(before);
    LastNIsSuffix(ws, k);
    SplitJoin(LastN(ws, k));
  }

  /** `context_after` holds exactly the first `min(k, n)` of the `n` words
      after the match, in their order. */
  lemma ContextAfterWords(after: string, k: nat)
    ensures var ws := SplitWords(after);
      var m := if k < |ws| then k else |ws|;
      SplitWords(ContextAfter(after, k)) == ws[..m]
    ensures k == 0 ==> ContextAfter(after, k) == []
  {
    var ws := SplitWords(after);
    FirstNIsPrefix(ws, k);
    SplitJoin(FirstN(ws, k));
  }

  /** A text with no whitespace at all is one word, so any positive `k` takes
      it whole. */
  lemma ContextOfUnspacedText(text: string, k: nat)
    requires IsWord(text) && k >= 1
    ensures ContextBefore(text, k) == text
    ensures ContextAfter(text, k) == text
  {
    WordIsOneWord(text);
  }

  /** A page whose only whitespace characters are ones `normalize_text`
      strips has no whitespace left once normalized. */
  lemma NormalizedPageHasNoWhitespace(page: string)
    requires forall i :: 0 <= i < |page| && IsWhitespace(page[i]) ==> IsStripped(page[i])
    ensures forall i :: 0 <= i < |Normalize(page)| ==> !IsWhitespace(Normalize(page)[i])
  {
    var np := Normalize(page);
    forall i | 0 <= i < |np|
      ensures !IsWhitespace(np[i])
    {
      var c := np[i];
      NormalizeKeepsOthers(page, c);
      NormalizeStrips(page);
      assert c in multiset(np);
      assert c in page;
    }
  }

  /** On such a page every context is one word: for a positive `k`, the
      whole normalized text before or after the match, and the empty text
      when there is none on that side; for `k == 0`, the empty text. */
  lemma NormalizedContexts(page: string, p: nat, n: nat, k: nat)
    requires forall i :: 0 <= i < |page| && IsWhitespace(page[i]) ==> IsStripped(page[i])
    requires p + n <= |Normalize(page)|
    ensures ContextBefore(Normalize(page)[..p], k) == if k == 0 || p == 0 then [] else Normalize(page)[..p]
    ensures ContextAfter(Normalize(page)[p + n..], k) ==
      if k == 0 || p + n == |Normalize(page)| then [] else Normalize(page)[p + n..]
  {
    var np := Normalize(page);
    NormalizedPageHasNoWhitespace(page);
    if k > 0 && p > 0 {
      ContextOfUnspacedText(np[..p], k);
    }
    if k > 0 && p + n < |np| {
      ContextOfUnspacedText(np[p + n..], k);
    }
  }

  // ---------------------------------------------------------------------------
  // The literal search

  /** Positions of the occurrences the literal search loop reports, starting
      its search at `start`: the first occurrence, then the occurrences found
      from its end on. */
  function Occurrences(hay: string, needle: string, start: nat): (ps: seq<nat>)
    requires needle != [] && start <= |hay|
    ensures EndsWithin(ps, |needle|, |hay|)
    decreases |hay| - start
  {
    match Find(hay[start..], needle)
    case None => []
    case Some(off) => [start + off] + Occurrences(hay, needle, start + off + |needle|)
  }

  /** Where `Find` answers `off` in the text from `start` on, the needle
      occurs at `start + off` of the whole text. */
  lemma FindFrom(hay: string, needle: string, start: nat)
    requires start <= |hay| && Find(hay[start..], needle).Some?
    ensures OccursAt(hay, needle, start + Find(hay[start..], needle).value)
  {
    var off := Find(hay[start..], needle).value;
    FindIsFirst(hay[start..], needle);
    assert hay[start..][off..off + |needle|] == hay[start + off..start + off + |needle|];
  }

  /** Every reported position is an occurrence at or after `start`, and the
      reported occurrences follow one another without overlapping. */
  lemma {:induction false} OccurrencesSound(hay: string, needle: string, start: nat)
    requires needle != [] && start <= |hay|
    ensures forall i :: 0 <= i < |Occurrences(hay, needle, start)| ==>
      start <= Occurrences(hay, needle, start)[i] && OccursAt(hay, needle, Occurrences(hay, needle, start)[i])
    ensures forall i, j :: 0 <= i < j < |Occurrences(hay, needle, start)| ==>
      Occurrences(hay, needle, start)[i] + |needle| <= Occurrences(hay, needle, start)[j]
    decreases |hay| - start
  {
    match Find(hay[start..], needle)
    case None =>
    case Some(off) =>
      var p := start + off;
      var next := p + |needle|;
      FindFrom(hay, needle, start);
      OccurrencesSound(hay, needle, next);
      var ps, rest := Occurrences(hay, needle, start), Occurrences(hay, needle, next);
      assert ps == [p] + rest;
      forall i | 0 <= i < |ps|
        ensures start <= ps[i] && OccursAt(hay, needle, ps[i])
      {
        if i > 0 {
          assert ps[i] == rest[i - 1];
        }
      }
      forall i, j | 0 <= i < j < |ps|
        ensures ps[i] + |needle| <= ps[j]
      {
        assert ps[j] == rest[j - 1];
        if i > 0 {
          assert ps[i] == rest[i - 1];
        }
      }
  }

  /** Position `j` lies inside one of the occurrences of length `n` at `ps`. */
  ghost predicate Covered(ps: seq<nat>, n: nat, j: nat) {
    exists i :: 0 <= i < |ps| && ps[i] <= j < ps[i] + n
  }

  /** No occurrence is missed: each occurrence at or after `start` either is
      reported or overlaps a reported one that begins before it. */
  lemma {:induction false} OccurrencesComplete(hay: string, needle: string, start: nat, j: nat)
    requires needle != [] && start <= |hay|
    requires start <= j && OccursAt(hay, needle, j)
    ensures Covered(Occurrences(hay, needle, start), |needle|, j)
    decreases |hay| - start
  {
    var ps := Occurrences(hay, needle, start);
    FindIsFirst(hay[start..], needle);
    assert hay[start..][j - start..j - start + |needle|] == hay[j..j + |needle|];
    assert OccursAt(hay[start..], needle, j - start);
    match Find(hay[start..], needle)
    case None =>
      assert false;
    case Some(off) =>
      var p := start + off;
      assert ps[0] == p;
      if j >= p + |needle| {
        OccurrencesComplete(hay, needle, p + |needle|, j);
        var rest := Occurrences(hay, needle, p + |needle|);
        assert ps == [p] + rest;
        var i :| 0 <= i < |rest| && rest[i] <= j < rest[i] + |needle|;
        assert ps[i + 1] == rest[i];
        assert 0 <= i + 1 < |ps| && ps[i + 1] <= j < ps[i + 1] + |needle|;
      } else {
        assert 0 < |ps| && ps[0] <= j < ps[0] + |needle|;
      }
  }

  /** The hit reported for an occurrence of length `n` at `pos` of the
      normalized page. */
  function MakeHit(np: string, pos: nat, n: nat, k: nat): Hit
    requires pos + n <= |np|
  {
    Hit(ContextBefore(np[..pos], k), np[pos..pos + n], ContextAfter(np[pos + n..], k))
  }

  /** Every match of length `n` at the positions `ps` ends inside a text of
      length `len`. */
  predicate EndsWithin(ps: seq<nat>, n: nat, len: nat) {
    forall i :: 0 <= i < |ps| ==> ps[i] + n <= len
  }

  /** One turn of the search: the occurrence found from `start` on, then
      those from its end. */
  lemma OccurrencesStep(hay: string, needle: string, start: nat, off: nat, p: nat, next: nat)
    requires needle != [] && start <= |hay| && Find(hay[start..], needle) == Some(off)
    requires p == start + off && next == p + |needle|
    ensures next <= |hay|
    ensures Occurrences(hay, needle, start) == [p] + Occurrences(hay, needle, next)
  {
  }

  /** One turn of the literal loop moves the occurrence it finds from those
      still to come to those found. */
  lemma OccurrencesTurn(hay: string, needle: string, start: nat, off: nat, p: nat, next: nat, done: seq<nat>)
    requires needle != [] && start <= |hay| && Find(hay[start..], needle) == Some(off)
    requires p == start + off && next == p + |needle|
    requires done + Occurrences(hay, needle, start) == Occurrences(hay, needle, 0)
    ensures next <= |hay|
    ensures (done + [p]) + Occurrences(hay, needle, next) == Occurrences(hay, needle, 0)
  {
    OccurrencesStep(hay, needle, start, off, p, next);
    AppendAssoc(done, [p], Occurrences(hay, needle, next));
  }

  lemma OccurrencesWithin(hay: string, needle: string, start: nat)
    requires needle != [] && start <= |hay|
    ensures EndsWithin(Occurrences(hay, needle, start), |needle|, |hay|)
  {
    OccurrencesSound(hay, needle, start);
  }

  /** The hits for matches of length `n` at the positions `ps` of the
      normalized page, one per position, in order. */
  function HitsAt(np: string, ps: seq<nat>, n: nat, k: nat): (hs: seq<Hit>)
    requires EndsWithin(ps, n, |np|)
    ensures |hs| == |ps|
  {
    if ps == [] then [] else HitsAt(np, ps[..|ps| - 1], n, k) + [MakeHit(np, ps[|ps| - 1], n, k)]
  }

  /** Hit `i` is cut at position `i`. */
  lemma {:induction false} HitsAtIndex(np: string, ps: seq<nat>, n: nat, k: nat, i: nat)
    requires EndsWithin(ps, n, |np|) && i < |ps|
    ensures HitsAt(np, ps, n, k)[i] == MakeHit(np, ps[i], n, k)
  {
    if i < |ps| - 1 {
      HitsAtIndex(np, ps[..|ps| - 1], n, k, i);
    }
  }

  /** A match at one more position adds its hit at the end. */
  lemma HitsAtSnoc(np: string, ps: seq<nat>, p: nat, n: nat, k: nat)
    requires EndsWithin(ps, n, |np|) && p + n <= |np|
    ensures EndsWithin(ps + [p], n, |np|)
    ensures HitsAt(np, ps + [p], n, k) == HitsAt(np, ps, n, k) + [MakeHit(np, p, n, k)]
  {
    assert (ps + [p])[..|ps|] == ps;
  }

  /** Where the literal search finds a query on a page: positions in the
      normalized page. */
  function LiteralPositions(pageText: string, query: string): seq<nat>
    requires Normalize(query) != []
  {
    Occurrences(Lower(Normalize(pageText)), Lower(Normalize(query)), 0)
  }

  /** The literal branch of `search_in_page`, as a value. */
  function LiteralHits(np: string, nq: string, k: nat): (hs: seq<Hit>)
    requires nq != []
    ensures |hs| == |Occurrences(Lower(np), Lower(nq), 0)|
  {
    var lp, needle := Lower(np), Lower(nq);
    OccurrencesWithin(lp, needle, 0);
    HitsAt(np, Occurrences(lp, needle, 0), |needle|, k)
  }

  /** The hit reported for a span of the regex engine. */
  function SpanHit(np: string, s: Span, k: nat): Hit
    requires s.start <= s.end <= |np|
  {
    Hit(ContextBefore(np[..s.start], k), np[s.start..s.end], ContextAfter(np[s.end..], k))
  }

  function SpanHits(np: string, spans: seq<Span>, k: nat): (hs: seq<Hit>)
    requires SpansWithin(spans, |np|)
  {
    seq(|spans|, i requires 0 <= i < |spans| => SpanHit(np, spans[i], k))
  }

  /** What `search_in_page` returns, as a value. A literal query must not
      normalize to the empty text: `find("")` answers 0, so the search cursor
      would never move and the loop would not end. */
  function PageHits(pageText: string, query: string, k: nat, useRegex: bool, e: RegexEngine): Result<seq<Hit>, SearchError>
    requires ValidEngine(e)
    requires useRegex || Normalize(query) != []
  {
    var nq := Normalize(query);
    var np := Normalize(pageText);
    if useRegex then
      var pattern := RegexPattern(nq);
      if !e.compiles(pattern) then Failure(InvalidRegex(pattern))
      else Success(SpanHits(np, e.findIter(pattern, np), k))
    else
      Success(LiteralHits(np, nq, k))
  }

  // ---------------------------------------------------------------------------
  // Properties of the page search

  /** The cursor of the literal loop stays where it is for a query that
      normalizes to nothing: the next search starts at the same place. */
  lemma EmptyQueryNeverAdvances(pageText: string, query: string, searchStart: nat)
    requires Normalize(query) == []
    requires searchStart <= |Normalize(pageText)|
    ensures var lp := Lower(Normalize(pageText));
      var needle := Lower(Normalize(query));
      Find(lp[searchStart..], needle) == Some(0)
      && searchStart + Find(lp[searchStart..], needle).value + |needle| == searchStart
  {
    FindEmpty(Lower(Normalize(pageText))[searchStart..]);
  }

  /** The slice of a text at an occurrence in its lower-case form lower-cases
      to the needle. */
  lemma LowerOfOccurrence(text: string, needle: string, p: nat)
    requires OccursAt(Lower(text), needle, p)
    ensures p + |needle| <= |text|
    ensures Lower(text[p..p + |needle|]) == needle
  {
    LowerSlice(text, p, p + |needle|);
  }

  /** The `i`-th reported position is an occurrence. */
  lemma OccurrenceAt(hay: string, needle: string, i: nat)
    requires needle != [] && i < |Occurrences(hay, needle, 0)|
    ensures OccursAt(hay, needle, Occurrences(hay, needle, 0)[i])
  {
    OccurrencesSound(hay, needle, 0);
  }

  /** One literal hit: it is cut at the matching reported position, and its
      matched text lower-cases to the lower-cased query. */
  lemma LiteralHitAt(np: string, nq: string, k: nat, i: nat)
    requires nq != []
    requires i < |Occurrences(Lower(np), Lower(nq), 0)|
    ensures |LiteralHits(np, nq, k)| == |Occurrences(Lower(np), Lower(nq), 0)|
    ensures Occurrences(Lower(np), Lower(nq), 0)[i] + |nq| <= |np|
    ensures LiteralHits(np, nq, k)[i] == MakeHit(np, Occurrences(Lower(np), Lower(nq), 0)[i], |nq|, k)
    ensures Lower(LiteralHits(np, nq, k)[i].matchedText) == Lower(nq)
  {
    var lp, needle := Lower(np), Lower(nq);
    HitsAtIndex(np, Occurrences(lp, needle, 0), |needle|, k, i);
    var p := Occurrences(lp, needle, 0)[i];
    OccurrenceAt(lp, needle, i);
    LowerOfOccurrence(np, needle, p);
    assert LiteralHits(np, nq, k)[i].matchedText == np[p..p + |needle|];
  }

  /** Hit `h` was found at position `p` of the normalized page `np`: its
      matched text is the slice there, and lower-cases to the lower-cased
      normalized query `nq`. */
  predicate FoundAt(np: string, nq: string, h: Hit, p: nat) {
    && p + |nq| <= |np|
    && h.matchedText == np[p..p + |nq|]
    && Lower(h.matchedText) == Lower(nq)
  }

  /** Literal hits lie at strictly increasing, non-overlapping positions of
      the normalized page, one hit per position, each found there. */
  lemma LiteralHitsAreOccurrences(pageText: string, query: string, k: nat)
    requires Normalize(query) != []
    ensures |LiteralHits(Normalize(pageText), Normalize(query), k)| == |LiteralPositions(pageText, query)|
    ensures forall i, j :: 0 <= i < j < |LiteralPositions(pageText, query)| ==>
      LiteralPositions(pageText, query)[i] + |Normalize(query)| <= LiteralPositions(pageText, query)[j]
    ensures forall i :: 0 <= i < |LiteralPositions(pageText, query)| ==>
      FoundAt(Normalize(pageText), Normalize(query),
              LiteralHits(Normalize(pageText), Normalize(query), k)[i], LiteralPositions(pageText, query)[i])
  {
    var np, nq := Normalize(pageText), Normalize(query);
    OccurrencesSound(Lower(np), Lower(nq), 0);
    forall i | 0 <= i < |LiteralPositions(pageText, query)|
      ensures FoundAt(np, nq, LiteralHits(np, nq, k)[i], LiteralPositions(pageText, query)[i])
    {
      LiteralHitAt(np, nq, k, i);
    }
  }

  /** Every place where the lower-cased query occurs in the lower-cased page
      is covered by a reported hit. */
  lemma LiteralHitsComplete(pageText: string, query: string, j: nat)
    requires Normalize(query) != []
    requires OccursAt(Lower(Normalize(pageText)), Lower(Normalize(query)), j)
    ensures Covered(LiteralPositions(pageText, query), |Normalize(query)|, j)
  {
    assert |Lower(Normalize(query))| == |Normalize(query)|;
    OccurrencesComplete(Lower(Normalize(pageText)), Lower(Normalize(query)), 0, j);
  }

  /** The contexts of hit `h`, for a match of length `n` at position `p` of
      the normalized page `np`: the last at most `k` words before the match
      and the first at most `k` words after it, each in their order. */
  predicate ContextsAround(np: string, h: Hit, p: nat, n: nat, k: nat)
    requires p + n <= |np|
  {
    var before, after := SplitWords(np[..p]), SplitWords(np[p + n..]);
    && SplitWords(h.contextBefore) == before[|before| - (if k < |before| then k else |before|)..]
    && SplitWords(h.contextAfter) == after[..if k < |after| then k else |after|]
  }

  lemma MakeHitContexts(np: string, p: nat, n: nat, k: nat)
    requires p + n <= |np|
    ensures ContextsAround(np, MakeHit(np, p, n, k), p, n, k)
  {
    ContextBeforeWords(np[..p], k);
    ContextAfterWords(np[p + n..], k);
  }

  /** Every literal hit carries the contexts around its position. */
  lemma LiteralHitContexts(pageText: string, query: string, k: nat, i: nat)
    requires Normalize(query) != []
    requires i < |LiteralPositions(pageText, query)|
    ensures LiteralPositions(pageText, query)[i] + |Normalize(query)| <= |Normalize(pageText)|
    ensures i < |LiteralHits(Normalize(pageText), Normalize(query), k)|
    ensures ContextsAround(Normalize(pageText), LiteralHits(Normalize(pageText), Normalize(query), k)[i],
                           LiteralPositions(pageText, query)[i], |Normalize(query)|, k)
  {
    var np, nq := Normalize(pageText), Normalize(query);
    LiteralHitAt(np, nq, k, i);
    MakeHitContexts(np, LiteralPositions(pageText, query)[i], |nq|, k);
  }

  /** A regex query fails exactly when its pattern does not compile, on every
      page alike; a literal query never fails. */
  lemma PageHitsFailure(pageText: string, query: string, k: nat, useRegex: bool, e: RegexEngine)
    requires ValidEngine(e)
    requires useRegex || Normalize(query) != []
    ensures PageHits(pageText, query, k, useRegex, e).Failure?
      <==> useRegex && !e.compiles(RegexPattern(Normalize(query)))
  {
  }

  // ---------------------------------------------------------------------------
  // The method

  /** `search_in_page`. */
  method SearchInPage(pageText: string, query: string, contextWords: nat, useRegex: bool, e: RegexEngine)
    returns (r: Result<seq<Hit>, SearchError>)
    requires ValidEngine(e)
    requires useRegex || Normalize(query) != []
    ensures r == PageHits(pageText, query, contextWords, useRegex, e)
  {
    var normalizedQuery := Normalize(query);
    var normalizedPage := Normalize(pageText);

    if useRegex {
      var pattern := RegexPattern(normalizedQuery);
      if !e.compiles(pattern) {
        return Failure(InvalidRegex(pattern));
      }
      var spans := e.findIter(pattern, normalizedPage);
      var hits: seq<Hit> := [];
      for i := 0 to |spans|
        invariant |hits| == i
        invariant forall j :: 0 <= j < i ==> hits[j] == SpanHit(normalizedPage, spans[j], contextWords)
      {
        hits := hits + [SpanHit(normalizedPage, spans[i], contextWords)];
      }
      assert hits == SpanHits(normalizedPage, spans, contextWords);
      return Success(hits);
    }

    var searchQuery := Lower(normalizedQuery);
    var pageLower := Lower(normalizedPage);
    var matches := LiteralSearch(normalizedPage, pageLower, searchQuery, contextWords);
    return Success(matches);
  }

  /** The literal loop of `search_in_page`: find the lower-cased query in the
      lower-cased page from the cursor on, cut the hit from the normalized
      page, move the cursor past the match. */
  method LiteralSearch(normalizedPage: string, pageLower: string, searchQuery: string, contextWords: nat)
    returns (matches: seq<Hit>)
    requires searchQuery != [] && |pageLower| == |normalizedPage|
    ensures EndsWithin(Occurrences(pageLower, searchQuery, 0), |searchQuery|, |normalizedPage|)
    ensures matches == HitsAt(normalizedPage, Occurrences(pageLower, searchQuery, 0), |searchQuery|, contextWords)
  {
    var n := |searchQuery|;
    matches := [];
    var searchStart := 0;
    var found := Find(pageLower[searchStart..], searchQuery);
    ghost var positions: seq<nat> := [];
    while found.Some?
      invariant searchStart <= |pageLower|
      invariant found == Find(pageLower[searchStart..], searchQuery)
      invariant positions + Occurrences(pageLower, searchQuery, searchStart) == Occurrences(pageLower, searchQuery, 0)
      invariant EndsWithin(positions, n, |normalizedPage|)
      invariant matches == HitsAt(normalizedPage, positions, n, contextWords)
      decreases |pageLower| - searchStart
    {
      var absolutePos: nat := searchStart + found.value;
      var matchEnd: nat := absolutePos + n;
      OccurrencesTurn(pageLower, searchQuery, searchStart, found.value, absolutePos, matchEnd, positions);
      var hit := CutHit(normalizedPage, absolutePos, n, contextWords);
      HitsAtSnoc(normalizedPage, positions, absolutePos, n, contextWords);
      matches := matches + [hit];
      positions := positions + [absolutePos];
      searchStart := matchEnd;
      found := Find(pageLower[searchStart..], searchQuery);
    }
    assert positions == Occurrences(pageLower, searchQuery, 0);
  }

  /** The hit of one turn of the literal loop, for the match of length `n`
      at `absolutePos` of the normalized page. */
  method CutHit(normalizedPage: string, absolutePos: nat, n: nat, contextWords: nat) returns (hit: Hit)
    requires absolutePos + n <= |normalizedPage|
    ensures hit == MakeHit(normalizedPage, absolutePos, n, contextWords)
    ensures hit.matchedText == normalizedPage[absolutePos..absolutePos + n]
    ensures ContextsAround(normalizedPage, hit, absolutePos, n, contextWords)
  {
    var matchEnd := absolutePos + n;
    var matchedText := normalizedPage[absolutePos..matchEnd];
    var contextBefore := ContextBefore(normalizedPage[..absolutePos], contextWords);
    var contextAfter := ContextAfter(normalizedPage[matchEnd..], contextWords);
    hit := Hit(contextBefore, matchedText, contextAfter);
    MakeHitContexts(normalizedPage, absolutePos, n, contextWords);
  }
}
