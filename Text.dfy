/**
 * The string primitives the search engine is built from: `normalize_text`,
 * `split_into_words`, the lower-casing and `str::find` used by the literal
 * search, `join`, and decimal formatting and parsing of numbers.
 *
 * Text is a sequence of Unicode scalar values (`string`). Lower-casing is
 * modelled for ASCII letters only, so it never changes the length of a text.
 */
module Text {
  import opened Wrappers

  // ---------------------------------------------------------------------------
  // normalize_text

  /** The eleven characters `normalize_text` drops: seven spacing characters
      (space, tab, line feed, carriage return, no-break space, figure space,
      narrow no-break space) and four hyphens (hyphen-minus, soft hyphen,
      hyphen, non-breaking hyphen). */
  predicate IsStripped(c: char) {
    || c == ' ' || c == '\t' || c == '\n' || c == '\r'
    || c == '\U{00A0}' || c == '\U{2007}' || c == '\U{202F}'
    || c == '-' || c == '\U{00AD}' || c == '\U{2010}' || c == '\U{2011}'
  }

  predicate NoneStripped(s: string) {
    forall i :: 0 <= i < |s| ==> !IsStripped(s[i])
  }

  /** `normalize_text`: the text with every stripped character removed. */
  function Normalize(s: string): (r: string)
    ensures |r| <= |s|
  {
    if s == [] then []
    else (if IsStripped(s[0]) then [] else [s[0]]) + Normalize(s[1..])
  }

  /** No stripped character survives normalization, and a text without
      stripped characters is left as it is. */
  lemma {:induction false} NormalizeStrips(s: string)
    ensures NoneStripped(Normalize(s))
    ensures NoneStripped(s) ==> Normalize(s) == s
  {
    if s != [] {
      NormalizeStrips(s[1..]);
    }
  }

  /** Normalizing twice is normalizing once. */
  lemma NormalizeIdempotent(s: string)
    ensures Normalize(Normalize(s)) == Normalize(s)
  {
    NormalizeStrips(s);
    NormalizeStrips(Normalize(s));
  }

  /** Normalization distributes over concatenation: it works character by
      character and keeps the order of what it keeps. */
  lemma {:induction false} NormalizeConcat(a: string, b: string)
    ensures Normalize(a + b) == Normalize(a) + Normalize(b)
  {
    if a == [] {
      assert a + b == b;
    } else {
      assert (a + b)[1..] == a[1..] + b;
      NormalizeConcat(a[1..], b);
    }
  }

  /** Every character that is not stripped survives as often as it occurs,
      and no stripped character survives. */
  lemma {:induction false} NormalizeKeepsOthers(s: string, c: char)
    ensures multiset(Normalize(s))[c] == if IsStripped(c) then 0 else multiset(s)[c]
  {
    if s != [] {
      NormalizeKeepsOthers(s[1..], c);
      assert s == [s[0]] + s[1..];
      assert multiset(s) == multiset([s[0]]) + multiset(s[1..]);
      var head := if IsStripped(s[0]) then [] else [s[0]];
      assert multiset(Normalize(s)) == multiset(head) + multiset(Normalize(s[1..]));
    }
  }

  // ---------------------------------------------------------------------------
  // split_into_words: Rust's `str::split_whitespace`

  /** Rust's `char::is_whitespace`, the Unicode White_Space property. It
      includes vertical tab, form feed, next line and several wide spaces that
      `normalize_text` does not strip. */
  predicate IsWhitespace(c: char) {
    || ('\t' <= c <= '\r') || c == ' ' || c == '\U{0085}' || c == '\U{00A0}'
    || c == '\U{1680}' || ('\U{2000}' <= c <= '\U{200A}') || c == '\U{2028}'
    || c == '\U{2029}' || c == '\U{202F}' || c == '\U{205F}' || c == '\U{3000}'
  }

  /** A word: a non-empty run of characters none of which is whitespace. */
  predicate IsWord(w: string) {
    w != [] && forall i :: 0 <= i < |w| ==> !IsWhitespace(w[i])
  }

  predicate AllWords(ws: seq<string>) {
    forall i :: 0 <= i < |ws| ==> IsWord(ws[i])
  }

  /** Length of the run of non-whitespace characters that starts the text. */
  function WordLength(s: string): (n: nat)
    ensures n <= |s|
    ensures forall i :: 0 <= i < n ==> !IsWhitespace(s[i])
    ensures n < |s| ==> IsWhitespace(s[n])
  {
    if s == [] || IsWhitespace(s[0]) then 0 else 1 + WordLength(s[1..])
  }

  /** `split_into_words`: the maximal non-whitespace runs, in order. */
  function SplitWords(s: string): (ws: seq<string>)
    ensures AllWords(ws)
    decreases |s|
  {
    if s == [] then []
    else if IsWhitespace(s[0]) then SplitWords(s[1..])
    else
      var n := WordLength(s);
      [s[..n]] + SplitWords(s[n..])
  }

  /** `join(sep)` on a list of strings. */
  function Join(ws: seq<string>, sep: string): string {
    if ws == [] then []
    else if |ws| == 1 then ws[0]
    else ws[0] + sep + Join(ws[1..], sep)
  }

  lemma {:induction false} WordLengthOfWord(w: string, t: string)
    requires IsWord(w)
    requires t == [] || IsWhitespace(t[0])
    ensures WordLength(w + t) == |w|
  {
    if |w| > 1 {
      assert (w + t)[1..] == w[1..] + t;
      WordLengthOfWord(w[1..], t);
    } else {
      assert (w + t)[1..] == t;
    }
  }

  /** A text without whitespace is a single word. */
  lemma WordIsOneWord(w: string)
    requires IsWord(w)
    ensures SplitWords(w) == [w]
  {
    WordLengthOfWord(w, []);
    assert w + [] == w;
  }

  /** Splitting words joined by single spaces gives the words back. */
  lemma {:induction false} SplitJoin(ws: seq<string>)
    requires AllWords(ws)
    ensures SplitWords(Join(ws, " ")) == ws
  {
    if ws == [] {
    } else if |ws| == 1 {
      WordIsOneWord(ws[0]);
    } else {
      var w, rest := ws[0], Join(ws[1..], " ");
      var s := w + " " + rest;
      assert s == w + (" " + rest);
      WordLengthOfWord(w, " " + rest);
      assert s[..|w|] == w;
      assert s[|w|..] == " " + rest;
      assert (" " + rest)[1..] == rest;
      assert SplitWords(s) == [w] + SplitWords(rest);
      SplitJoin(ws[1..]);
      assert ws == [w] + ws[1..];
    }
  }

  /** The characters of the text that are not whitespace, in order. */
  function RemoveWs(s: string): (r: string)
    ensures |r| <= |s|
    ensures forall i :: 0 <= i < |r| ==> !IsWhitespace(r[i])
  {
    if s == [] then []
    else (if IsWhitespace(s[0]) then [] else [s[0]]) + RemoveWs(s[1..])
  }

  lemma {:induction false} RemoveWsConcat(a: string, b: string)
    ensures RemoveWs(a + b) == RemoveWs(a) + RemoveWs(b)
  {
    if a != [] {
      assert (a + b)[1..] == a[1..] + b;
      RemoveWsConcat(a[1..], b);
    } else {
      assert a + b == b;
    }
  }

  lemma {:induction false} RemoveWsOfRun(w: string)
    requires forall i :: 0 <= i < |w| ==> !IsWhitespace(w[i])
    ensures RemoveWs(w) == w
  {
    if w != [] {
      RemoveWsOfRun(w[1..]);
    }
  }

  /** The first word of a text is not lengthened by what follows it, when
      that starts with whitespace. */
  lemma {:induction false} WordLengthBefore(a: string, t: string)
    requires t == [] || IsWhitespace(t[0])
    ensures WordLength(a + t) == WordLength(a)
  {
    if a == [] {
      assert a + t == t;
    } else if !IsWhitespace(a[0]) {
      assert (a + t)[1..] == a[1..] + t;
      WordLengthBefore(a[1..], t);
    }
  }

  /** The words hold every character of the text that is not whitespace, in
      order: splitting loses nothing and reorders nothing. */
  lemma {:induction false} SplitWordsContent(s: string)
    ensures Flatten(SplitWords(s)) == RemoveWs(s)
    decreases |s|
  {
    if s != [] {
      if IsWhitespace(s[0]) {
        SplitWordsContent(s[1..]);
      } else {
        var n := WordLength(s);
        var rest := SplitWords(s[n..]);
        SplitWordsContent(s[n..]);
        FlattenAppend([s[..n]], rest);
        assert Flatten([s[..n]]) == s[..n] by {
          assert [s[..n]][..0] == [];
        }
        RemoveWsOfRun(s[..n]);
        assert s == s[..n] + s[n..];
        RemoveWsConcat(s[..n], s[n..]);
      }
    }
  }

  /** Every whitespace character separates words: the words of a text cut at
      a whitespace character are the words of the two sides. */
  lemma {:induction false} SplitAtWhitespace(a: string, c: char, b: string)
    requires IsWhitespace(c)
    ensures SplitWords(a + [c] + b) == SplitWords(a) + SplitWords(b)
    decreases |a|
  {
    var s := a + [c] + b;
    if a == [] {
      assert s == [c] + b;
      assert s[1..] == b;
    } else if IsWhitespace(a[0]) {
      assert s[1..] == a[1..] + [c] + b;
      SplitAtWhitespace(a[1..], c, b);
    } else {
      assert s == a + ([c] + b);
      WordLengthBefore(a, [c] + b);
      var n := WordLength(a);
      assert s[..n] == a[..n];
      assert s[n..] == a[n..] + [c] + b;
      SplitAtWhitespace(a[n..], c, b);
      AppendAssoc([a[..n]], SplitWords(a[n..]), SplitWords(b));
    }
  }

  /** The last at most `k` elements, in their order (`.rev().take(k).rev()`). */
  function LastN<T>(xs: seq<T>, k: nat): (r: seq<T>)
    ensures |r| == if k < |xs| then k else |xs|
  {
    if |xs| <= k then xs else LastN(xs[1..], k)
  }

  /** The first at most `k` elements (`.take(k)`). */
  function FirstN<T>(xs: seq<T>, k: nat): (r: seq<T>)
    ensures |r| == if k < |xs| then k else |xs|
  {
    if xs == [] || k == 0 then [] else [xs[0]] + FirstN(xs[1..], k - 1)
  }

  /** `LastN` is the suffix of its length. */
  lemma {:induction false} LastNIsSuffix<T>(xs: seq<T>, k: nat)
    ensures LastN(xs, k) == xs[|xs| - |LastN(xs, k)|..]
  {
    if |xs| > k {
      LastNIsSuffix(xs[1..], k);
      assert xs[1..][|xs| - 1 - k..] == xs[|xs| - k..];
    }
  }

  /** `FirstN` is the prefix of its length. */
  lemma {:induction false} FirstNIsPrefix<T>(xs: seq<T>, k: nat)
    ensures FirstN(xs, k) == xs[..|FirstN(xs, k)|]
  {
    if xs != [] && k != 0 {
      FirstNIsPrefix(xs[1..], k - 1);
      assert xs[..|FirstN(xs, k)|] == [xs[0]] + xs[1..][..|FirstN(xs[1..], k - 1)|];
    }
  }

  // ---------------------------------------------------------------------------
  // Lower-casing and str::find

  /** `to_lowercase` on one character, for ASCII letters; every other
      character is left as it is. */
  function LowerChar(c: char): char {
    if 'A' <= c <= 'Z' then (c as int + 32) as char else c
  }

  /** `to_lowercase` on ASCII text: no upper-case letter remains, every
      other character is kept, and the length does not change. */
  function Lower(s: string): (r: string)
    ensures |r| == |s|
    ensures forall i :: 0 <= i < |r| ==> !('A' <= r[i] <= 'Z')
    ensures forall i :: 0 <= i < |s| && !('A' <= s[i] <= 'Z') ==> r[i] == s[i]
  {
    seq(|s|, i requires 0 <= i < |s| => LowerChar(s[i]))
  }

  /** Lower-casing commutes with slicing, because it works per character. */
  lemma LowerSlice(s: string, a: nat, b: nat)
    requires a <= b <= |s|
    ensures Lower(s)[a..b] == Lower(s[a..b])
  {
  }

  predicate OccursAt(hay: string, needle: string, j: nat) {
    j + |needle| <= |hay| && hay[j..j + |needle|] == needle
  }

  /** `str::find`: the first position at which `needle` occurs in `hay`. */
  function Find(hay: string, needle: string): (r: Option<nat>)
    ensures r.Some? ==> r.value + |needle| <= |hay|
    decreases |hay|
  {
    if |needle| > |hay| then None
    else if hay[..|needle|] == needle then Some(0)
    else
      match Find(hay[1..], needle)
      case None => None
      case Some(i) => Some(i + 1)
  }

  /** `Find` answers the first occurrence, and nothing when there is none. */
  lemma {:induction false} FindIsFirst(hay: string, needle: string)
    ensures Find(hay, needle).Some? ==> OccursAt(hay, needle, Find(hay, needle).value)
    ensures Find(hay, needle).Some? ==>
      forall j :: 0 <= j < Find(hay, needle).value ==> !OccursAt(hay, needle, j)
    ensures Find(hay, needle).None? ==> forall j :: 0 <= j <= |hay| ==> !OccursAt(hay, needle, j)
    decreases |hay|
  {
    if |needle| <= |hay| && hay[..|needle|] != needle {
      assert !OccursAt(hay, needle, 0);
      FindIsFirst(hay[1..], needle);
      forall j | 1 <= j <= |hay|
        ensures OccursAt(hay, needle, j) <==> OccursAt(hay[1..], needle, j - 1)
      {
        if j + |needle| <= |hay| {
          assert hay[1..][j - 1..j - 1 + |needle|] == hay[j..j + |needle|];
        }
      }
    }
  }

  /** An empty needle is found at once: `find("")` answers 0. */
  lemma FindEmpty(hay: string)
    ensures Find(hay, []) == Some(0)
  {
  }

  // ---------------------------------------------------------------------------
  // Decimal digits: `parse::<i32>` on digit strings and `to_string` on numbers

  predicate IsDigit(c: char) {
    '0' <= c <= '9'
  }

  predicate AllDigits(s: string) {
    forall i :: 0 <= i < |s| ==> IsDigit(s[i])
  }

  function DigitValue(c: char): (d: nat)
    requires IsDigit(c)
  {
    c as int - '0' as int
  }

  function DigitChar(d: nat): (c: char)
    requires d < 10
  {
    ('0' as int + d) as char
  }

  /** The value of a string of decimal digits. */
  function ParseDigits(s: string): nat
    requires AllDigits(s)
  {
    if s == [] then 0 else ParseDigits(s[..|s| - 1]) * 10 + DigitValue(s[|s| - 1])
  }

  /** `to_string` on a natural number: its decimal digits, without leading
      zeros. */
  function NatToString(n: nat): (r: string)
    ensures r != [] && AllDigits(r)
    ensures |r| > 1 ==> r[0] != '0'
  {
    if n < 10 then [DigitChar(n)] else NatToString(n / 10) + [DigitChar(n % 10)]
  }

  /** Printing a number and parsing the digits gives the number back. */
  lemma {:induction false} ParseNatToString(n: nat)
    ensures ParseDigits(NatToString(n)) == n
  {
    if n >= 10 {
      var s := NatToString(n);
      assert s[..|s| - 1] == NatToString(n / 10);
      ParseNatToString(n / 10);
    }
  }

  lemma {:induction false} LeadingDigitPositive(s: string)
    requires s != [] && AllDigits(s) && s[0] != '0'
    ensures ParseDigits(s) >= 1
  {
    if |s| > 1 {
      LeadingDigitPositive(s[..|s| - 1]);
    }
  }

  /** Parsing digits without a leading zero and printing the value gives the
      digits back. */
  lemma {:induction false} NatToStringParse(s: string)
    requires s != [] && AllDigits(s)
    requires |s| > 1 ==> s[0] != '0'
    ensures NatToString(ParseDigits(s)) == s
  {
    if |s| > 1 {
      var p := s[..|s| - 1];
      LeadingDigitPositive(p);
      NatToStringParse(p);
      var n := ParseDigits(s);
      assert n / 10 == ParseDigits(p) && n % 10 == DigitValue(s[|s| - 1]);
      assert s == p + [s[|s| - 1]];
    }
  }

  // ---------------------------------------------------------------------------
  // Concatenating a list of lists

  /** The concatenation of a list of lists, in order. */
  function Flatten<T>(xss: seq<seq<T>>): seq<T> {
    if xss == [] then [] else Flatten(xss[..|xss| - 1]) + xss[|xss| - 1]
  }

  lemma {:induction false} FlattenAppend<T>(a: seq<seq<T>>, b: seq<seq<T>>)
    ensures Flatten(a + b) == Flatten(a) + Flatten(b)
    decreases |b|
  {
    if b == [] {
      assert a + b == a;
    } else {
      var b', last := b[..|b| - 1], b[|b| - 1];
      assert (a + b)[..|a + b| - 1] == a + b';
      assert (a + b)[|a + b| - 1] == last;
      assert Flatten(a + b) == Flatten(a + b') + last;
      FlattenAppend(a, b');
      assert Flatten(b) == Flatten(b') + last;
      AppendAssoc(Flatten(a), Flatten(b'), last);
    }
  }

  lemma {:induction false} FlattenMembership<T>(xss: seq<seq<T>>, x: T)
    ensures x in Flatten(xss) <==> exists i :: 0 <= i < |xss| && x in xss[i]
  {
    if xss != [] {
      var init := xss[..|xss| - 1];
      FlattenMembership(init, x);
      assert forall i :: 0 <= i < |init| ==> init[i] == xss[i];
      if exists i :: 0 <= i < |xss| && x in xss[i] {
        var i :| 0 <= i < |xss| && x in xss[i];
        if i < |init| {
          assert x in init[i];
        }
      }
    }
  }

  /** Dropping an empty list does not change the concatenation. */
  lemma FlattenWithoutEmpty<T>(xss: seq<seq<T>>, i: nat)
    requires i < |xss| && xss[i] == []
    ensures Flatten(xss) == Flatten(xss[..i] + xss[i + 1..])
  {
    FlattenAt(xss, i);
    FlattenAppend(xss[..i], xss[i + 1..]);
    assert Flatten(xss[..i]) + xss[i] == Flatten(xss[..i]);
  }

  lemma FlattenSnoc<T>(xss: seq<seq<T>>, i: nat)
    requires i < |xss|
    ensures Flatten(xss[..i + 1]) == Flatten(xss[..i]) + xss[i]
  {
    assert xss[..i + 1][..i] == xss[..i];
  }

  /** Element `i` sits between the elements before it and those after it. */
  lemma FlattenAt<T>(xss: seq<seq<T>>, i: nat)
    requires i < |xss|
    ensures Flatten(xss) == Flatten(xss[..i]) + xss[i] + Flatten(xss[i + 1..])
  {
    assert xss == xss[..i + 1] + xss[i + 1..];
    FlattenAppend(xss[..i + 1], xss[i + 1..]);
    FlattenSnoc(xss, i);
  }

  lemma AppendAssoc<T>(a: seq<T>, b: seq<T>, c: seq<T>)
    ensures a + b + c == a + (b + c)
  {
  }

  lemma AppendFive<T>(pre: seq<T>, a: seq<T>, b: seq<T>, c: seq<T>, d: seq<T>, e: seq<T>)
    ensures pre + a + b + c + d + e == pre + (a + b + c + d + e)
  {
  }

  /** `f` applied to every element, in order. */
  function Map<A, B>(xs: seq<A>, f: A --> B): (ys: seq<B>)
    requires forall x :: x in xs ==> f.requires(x)
    ensures |ys| == |xs|
  {
    seq(|xs|, j requires 0 <= j < |xs| => f(xs[j]))
  }

  lemma MapWithout<A, B>(xs: seq<A>, f: A --> B, i: nat)
    requires i < |xs| && forall x :: x in xs ==> f.requires(x)
    ensures forall x :: x in xs[..i] + xs[i + 1..] ==> f.requires(x)
    ensures Map(xs[..i] + xs[i + 1..], f) == Map(xs, f)[..i] + Map(xs, f)[i + 1..]
  {
    var rest := xs[..i] + xs[i + 1..];
    assert forall j :: 0 <= j < |rest| ==> rest[j] == if j < i then xs[j] else xs[j + 1];
  }
}
