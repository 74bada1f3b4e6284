/**
 * The pure part of `build_zotero_map`: from attachment rows of the Zotero
 * library to a map from PDF file name to citation metadata.
 *
 * The SQLite databases are inputs here: the attachment query's rows (a row
 * that fails to decode is a `Failure`), the item fields, the creators of
 * each item in their order, and the Better BibTeX citation keys when that
 * database exists.
 */
module Zotero {
  import opened Wrappers
  import opened Text

  /** `ZoteroMetadata`. */
  datatype ZoteroMetadata = ZoteroMetadata(
    citekey: string,
    title: Option<string>,
    year: Option<string>,
    authors: Option<string>,
    zoteroLink: string,
    pdfAttachmentKey: Option<string>)

  /** One row of the attachment query: the attachment's id, key and path,
      and its parent item's id and key, when there is a parent. */
  datatype AttachmentRow = AttachmentRow(
    attachmentId: int,
    attachmentKey: string,
    path: string,
    parentId: Option<int>,
    parentKey: Option<string>)

  /** One row of the creators query. */
  datatype CreatorRow = CreatorRow(firstName: Option<string>, lastName: Option<string>)

  /** What the queries on the two databases answer: field values by item id
      and field name, the creator rows of an item in `orderIndex` order, and
      the Better BibTeX citation keys by item key (`None` when there is no
      Better BibTeX database). */
  datatype ItemDb = ItemDb(
    fields: map<(int, string), string>,
    creators: map<int, seq<CreatorRow>>,
    citekeys: Option<map<string, string>>)

  // ---------------------------------------------------------------------------
  // The attachment's file name

  /** `rfind(c)`: the last position of `c` in `s`. */
  function LastIndexOf(s: string, c: char): (r: Option<nat>)
    ensures r.Some? ==> r.value < |s| && s[r.value] == c
    ensures r.Some? ==> forall j :: r.value < j < |s| ==> s[j] != c
    ensures r.None? ==> c !in s
  {
    if s == [] then None
    else if s[|s| - 1] == c then Some(|s| - 1)
    else LastIndexOf(s[..|s| - 1], c)
  }

  /** The text after the last `c`, or all of `s` when there is none: the
      longest suffix of `s` free of `c`. */
  function AfterLast(s: string, c: char): (r: string)
    ensures |r| <= |s| && r == s[|s| - |r|..]
    ensures c !in r
    ensures c in s ==> s[|s| - |r| - 1] == c
    ensures c !in s ==> r == s
  {
    match LastIndexOf(s, c)
    case None => s
    case Some(i) => s[i + 1..]
  }

  /** The file name of an attachment path, stored either as
      `storage:filename.pdf` or as a file-system path: the text after the
      last `:`, or else the text after the last `/`. */
  function AttachmentFileName(path: string): (name: string)
    ensures ':' !in name
    ensures ':' !in path ==> '/' !in name
    ensures |name| <= |path| && name == path[|path| - |name|..]
  {
    if ':' in path then AfterLast(path, ':') else AfterLast(path, '/')
  }

  /** After the last `c`: the text following a `c` that nothing after it
      repeats. */
  lemma AfterLastOf(p: string, c: char, name: string)
    requires c !in name
    ensures AfterLast(p + [c] + name, c) == name
  {
    var s := p + [c] + name;
    assert s[|p|] == c;
    assert forall j :: |p| < j < |s| ==> s[j] == name[j - |p| - 1];
    assert s[|p| + 1..] == name;
  }

  /** A file name is recovered from both ways Zotero stores it. */
  lemma AttachmentFileNameRoundTrip(dir: string, name: string)
    requires ':' !in name && '/' !in name && ':' !in dir
    ensures AttachmentFileName("storage:" + name) == name
    ensures AttachmentFileName(dir + "/" + name) == name
  {
    assert "storage:" + name == "storage" + [':'] + name;
    AfterLastOf("storage", ':', name);
    var t := dir + "/" + name;
    assert t == dir + ['/'] + name;
    assert ':' !in t by {
      assert forall j :: 0 <= j < |t| ==> t[j] == (if j < |dir| then dir[j] else if j == |dir| then '/' else name[j - |dir| - 1]);
    }
    AfterLastOf(dir, '/', name);
  }

  // ---------------------------------------------------------------------------
  // Item identity, citation key and link

  /** The item the metadata describes: the parent item when the row has both
      a parent id and a parent key, and the attachment itself otherwise. */
  function ItemIdentity(row: AttachmentRow): (idKey: (int, string))
    ensures row.parentId.Some? && row.parentKey.Some? ==> idKey == (row.parentId.value, row.parentKey.value)
    ensures row.parentId.None? || row.parentKey.None? ==> idKey == (row.attachmentId, row.attachmentKey)
  {
    match (row.parentId, row.parentKey)
    case (Some(pid), Some(pkey)) => (pid, pkey)
    case _ => (row.attachmentId, row.attachmentKey)
  }

  /** The Better BibTeX citation key of an item, falling back to the item key
      when there is no Better BibTeX database or no key for the item. */
  function Citekey(db: ItemDb, itemKey: string): (key: string)
    ensures db.citekeys.Some? && itemKey in db.citekeys.value ==> key == db.citekeys.value[itemKey]
    ensures db.citekeys.None? || itemKey !in db.citekeys.value ==> key == itemKey
  {
    if db.citekeys.Some? && itemKey in db.citekeys.value then db.citekeys.value[itemKey] else itemKey
  }

  const LinkPrefix: string := "zotero://select/library/items/"

  /** `zotero://select/library/items/{key}`. */
  function ZoteroLink(itemKey: string): (link: string)
    ensures |link| == |LinkPrefix| + |itemKey|
    ensures link[..|LinkPrefix|] == LinkPrefix
  {
    LinkPrefix + itemKey
  }

  /** The item key is read back from its link, so different items get
      different links. */
  lemma ZoteroLinkKey(itemKey: string)
    ensures ZoteroLink(itemKey)[|LinkPrefix|..] == itemKey
  {
  }

  lemma ZoteroLinkInjective(a: string, b: string)
    requires ZoteroLink(a) == ZoteroLink(b)
    ensures a == b
  {
    ZoteroLinkKey(a);
    ZoteroLinkKey(b);
  }

  /** `get_item_field`: the value of a field of an item, if it has one. */
  function ItemField(db: ItemDb, itemId: int, fieldName: string): (v: Option<string>)
    ensures v.Some? <==> (itemId, fieldName) in db.fields
    ensures v.Some? ==> v.value == db.fields[(itemId, fieldName)]
  {
    if (itemId, fieldName) in db.fields then Some(db.fields[(itemId, fieldName)]) else None
  }

  /** The creator rows of an item, none when it has no creators. */
  function CreatorRows(db: ItemDb, itemId: int): seq<CreatorRow> {
    if itemId in db.creators then db.creators[itemId] else []
  }

  // ---------------------------------------------------------------------------
  // get_item_creators

  /** The name one creator row contributes: `first last` when both are
      present, either one alone, and none when both are missing. */
  function CreatorName(row: CreatorRow): (name: Option<string>)
    ensures name.None? <==> row.firstName.None? && row.lastName.None?
    ensures row.firstName.Some? && row.lastName.Some? ==>
      name == Some(row.firstName.value + " " + row.lastName.value)
    ensures row.firstName.None? && row.lastName.Some? ==> name == row.lastName
    ensures row.firstName.Some? && row.lastName.None? ==> name == row.firstName
  {
    match (row.firstName, row.lastName)
    case (Some(first), Some(last)) => Some(first + " " + last)
    case (None, Some(last)) => Some(last)
    case (Some(first), None) => Some(first)
    case (None, None) => None
  }

  /** The names of the creator rows that have one, in row order. */
  function CreatorNames(rows: seq<CreatorRow>): (names: seq<string>)
    ensures |names| <= |rows|
  {
    if rows == [] then []
    else
      var rest := CreatorNames(rows[..|rows| - 1]);
      match CreatorName(rows[|rows| - 1])
      case None => rest
      case Some(name) => rest + [name]
  }

  /** What `get_item_creators` answers for rows read without error. */
  function Authors(rows: seq<CreatorRow>): Option<string> {
    var names := CreatorNames(rows);
    if names == [] then None else Some(Join(names, ", "))
  }

  /** The names are those of the named rows, in their order: every row's
      name is kept and no other string appears. */
  lemma {:induction false} CreatorNamesAreNamedRows(rows: seq<CreatorRow>)
    ensures |CreatorNames(rows)| == |NamedRows(rows)|
    ensures forall i :: 0 <= i < |CreatorNames(rows)| ==>
      CreatorName(rows[NamedRows(rows)[i]]) == Some(CreatorNames(rows)[i])
  {
    if rows != [] {
      CreatorNamesAreNamedRows(rows[..|rows| - 1]);
      NamedRowsPrefix(rows);
    }
  }

  /** Indices of the rows that have a name, in increasing order. */
  function NamedRows(rows: seq<CreatorRow>): (idx: seq<nat>)
    ensures forall i :: 0 <= i < |idx| ==> idx[i] < |rows| && CreatorName(rows[idx[i]]).Some?
    ensures forall i, j :: 0 <= i < j < |idx| ==> idx[i] < idx[j]
    ensures forall r :: 0 <= r < |rows| && CreatorName(rows[r]).Some? ==> r in idx
  {
    if rows == [] then []
    else
      var rest := NamedRows(rows[..|rows| - 1]);
      if CreatorName(rows[|rows| - 1]).Some? then rest + [|rows| - 1] else rest
  }

  lemma NamedRowsPrefix(rows: seq<CreatorRow>)
    requires rows != []
    ensures forall i :: 0 <= i < |NamedRows(rows[..|rows| - 1])| ==>
      NamedRows(rows)[i] == NamedRows(rows[..|rows| - 1])[i]
  {
  }

  /** There is no author string exactly when no row has a name. */
  lemma AuthorsNone(rows: seq<CreatorRow>)
    ensures Authors(rows).None? <==> forall i :: 0 <= i < |rows| ==> CreatorName(rows[i]).None?
  {
    CreatorNamesAreNamedRows(rows);
    if CreatorNames(rows) == [] {
      forall i | 0 <= i < |rows|
        ensures CreatorName(rows[i]).None?
      {
        assert |NamedRows(rows)| == 0;
      }
    } else {
      assert CreatorName(rows[NamedRows(rows)[0]]).Some?;
    }
  }

  /** `get_item_creators`: the names of the rows, joined by `", "`, or none
      when no row has a name. */
  method FormatCreators(rows: seq<CreatorRow>) returns (authors: Option<string>)
    ensures authors == Authors(rows)
  {
    var creators: seq<string> := [];
    for i := 0 to |rows|
      invariant creators == CreatorNames(rows[..i])
    {
      assert rows[..i + 1][..i] == rows[..i];
      match CreatorName(rows[i])
      case None =>
      case Some(name) =>
        creators := creators + [name];
    }
    assert rows[..|rows|] == rows;
    if creators == [] {
      return None;
    }
    return Some(Join(creators, ", "));
  }

  // ---------------------------------------------------------------------------
  // extract_year

  /** The pieces of `split(|c| !c.is_numeric())`: the texts between
      non-digit characters, empty ones included. */
  function DigitParts(s: string): (parts: seq<string>)
    ensures |parts| >= 1
    ensures forall i :: 0 <= i < |parts| ==> AllDigits(parts[i])
    decreases |s|
  {
    var n := DigitRunLength(s);
    if n == |s| then [s] else [s[..n]] + DigitParts(s[n + 1..])
  }

  /** The length of the run of digits that starts `s`. */
  function DigitRunLength(s: string): (n: nat)
    ensures n <= |s| && AllDigits(s[..n])
    ensures n < |s| ==> !IsDigit(s[n])
  {
    if s == [] || !IsDigit(s[0]) then 0
    else
      var m := DigitRunLength(s[1..]);
      assert s[..1 + m] == [s[0]] + s[1..][..m];
      1 + m
  }

  /** A piece that `extract_year` accepts: four digits whose value is in
      1000..9999. */
  predicate IsYear(part: string)
    requires AllDigits(part)
  {
    |part| == 4 && 1000 <= ParseDigits(part) <= 9999
  }

  /** The first accepted piece, printed back from its value. */
  function FirstYear(parts: seq<string>): (y: Option<string>)
    requires forall i :: 0 <= i < |parts| ==> AllDigits(parts[i])
    ensures parts == [] ==> y.None?
    ensures y.Some? ==> y.value != [] && AllDigits(y.value)
  {
    if parts == [] then None
    else if IsYear(parts[0]) then Some(NatToString(ParseDigits(parts[0])))
    else FirstYear(parts[1..])
  }

  /** `extract_year`. */
  function ExtractYear(date: Option<string>): (year: Option<string>)
    ensures date.None? ==> year.None?
    ensures year.Some? ==> year.value != [] && AllDigits(year.value)
  {
    match date
    case None => None
    case Some(s) => FirstYear(DigitParts(s))
  }

  /** Four digits form a year exactly when the first is not `0`. */
  lemma YearLeadingDigit(part: string)
    requires AllDigits(part) && |part| == 4
    ensures IsYear(part) <==> part[0] != '0'
  {
    var a, b, c, d := DigitValue(part[0]), DigitValue(part[1]), DigitValue(part[2]), DigitValue(part[3]);
    var p1, p2, p3 := part[..1], part[..2], part[..3];
    assert p1[..0] == [] && p2[..1] == p1 && p3[..2] == p2 && part[..3] == p3;
    assert ParseDigits(p1) == a;
    assert ParseDigits(p2) == a * 10 + b;
    assert ParseDigits(p3) == (a * 10 + b) * 10 + c;
    assert ParseDigits(part) == ((a * 10 + b) * 10 + c) * 10 + d;
  }

  /** The year found is the first piece accepted, unchanged: four digits not
      starting with `0`. */
  lemma {:induction false} FirstYearIsFirstPiece(parts: seq<string>)
    requires forall i :: 0 <= i < |parts| ==> AllDigits(parts[i])
    ensures FirstYear(parts).None? <==> forall i :: 0 <= i < |parts| ==> !IsYear(parts[i])
    ensures FirstYear(parts).Some? ==> exists i :: 0 <= i < |parts| && FirstAccepted(parts, i)
  {
    if parts != [] {
      if IsYear(parts[0]) {
        YearLeadingDigit(parts[0]);
        NatToStringParse(parts[0]);
        assert FirstAccepted(parts, 0);
      } else {
        FirstYearIsFirstPiece(parts[1..]);
        if FirstYear(parts[1..]).Some? {
          var i :| 0 <= i < |parts[1..]| && FirstAccepted(parts[1..], i);
          assert FirstAccepted(parts, i + 1);
        }
        assert forall i :: 1 <= i < |parts| ==> parts[i] == parts[1..][i - 1];
      }
    }
  }

  /** Piece `i` is the first accepted one, and the year answered is it. */
  ghost predicate FirstAccepted(parts: seq<string>, i: nat)
    requires i < |parts| && forall j :: 0 <= j < |parts| ==> AllDigits(parts[j])
  {
    && IsYear(parts[i])
    && (forall j :: 0 <= j < i ==> !IsYear(parts[j]))
    && parts[i][0] != '0'
    && FirstYear(parts) == Some(parts[i])
  }

  /** `extract_year` answers the first piece of the date that is a year, as
      written in the date, and none when there is no such piece or no date. */
  lemma ExtractYearSpec(date: Option<string>)
    ensures date.None? ==> ExtractYear(date).None?
    ensures date.Some? ==>
      (ExtractYear(date).None? <==> forall i :: 0 <= i < |DigitParts(date.value)| ==> !IsYear(DigitParts(date.value)[i]))
    ensures date.Some? && ExtractYear(date).Some? ==>
      exists i :: 0 <= i < |DigitParts(date.value)| && FirstAccepted(DigitParts(date.value), i)
  {
    if date.Some? {
      FirstYearIsFirstPiece(DigitParts(date.value));
    }
  }

  /** The date with every non-digit character replaced by `-`. */
  function MaskSeparators(s: string): (r: string)
    ensures |r| == |s|
  {
    seq(|s|, i requires 0 <= i < |s| => if IsDigit(s[i]) then s[i] else '-')
  }

  /** The pieces joined with `-` give the date back with each separator
      replaced by `-`: each piece is a maximal run of digits, none is lost
      and every separator splits exactly once. */
  lemma {:induction false} DigitPartsJoin(s: string)
    ensures Join(DigitParts(s), "-") == MaskSeparators(s)
    decreases |s|
  {
    var n := DigitRunLength(s);
    if n == |s| {
      assert s[..n] == s;
      MaskOfDigits(s);
    } else {
      var rest := s[n + 1..];
      DigitPartsJoin(rest);
      MaskSplit(s, n);
      var parts := DigitParts(s);
      assert parts == [s[..n]] + DigitParts(rest);
      assert parts[1..] == DigitParts(rest);
    }
  }

  lemma MaskOfDigits(s: string)
    requires AllDigits(s)
    ensures MaskSeparators(s) == s
  {
  }

  /** Masking splits at the first separator. */
  lemma MaskSplit(s: string, n: nat)
    requires n < |s| && AllDigits(s[..n]) && !IsDigit(s[n])
    ensures MaskSeparators(s) == s[..n] + "-" + MaskSeparators(s[n + 1..])
  {
    var rest := s[n + 1..];
    var lhs := s[..n] + "-" + MaskSeparators(rest);
    forall i | 0 <= i < |s|
      ensures lhs[i] == MaskSeparators(s)[i]
    {
      if i < n {
        assert lhs[i] == s[..n][i] == s[i];
        assert IsDigit(s[..n][i]);
      } else if i > n {
        assert lhs[i] == MaskSeparators(rest)[i - n - 1];
        assert rest[i - n - 1] == s[i];
      }
    }
  }

  // ---------------------------------------------------------------------------
  // build_zotero_map

  /** The metadata stored for one attachment row. */
  function Metadata(db: ItemDb, row: AttachmentRow): (m: ZoteroMetadata)
    ensures m.zoteroLink == ZoteroLink(ItemIdentity(row).1)
    ensures m.pdfAttachmentKey == Some(row.attachmentKey)
  {
    var (itemId, itemKey) := ItemIdentity(row);
    ZoteroMetadata(
      Citekey(db, itemKey),
      ItemField(db, itemId, "title"),
      ExtractYear(ItemField(db, itemId, "date")),
      Authors(CreatorRows(db, itemId)),
      ZoteroLink(itemKey),
      Some(row.attachmentKey))
  }

  /** The map after the rows, in order: each row read without error stores
      `f` of the row under its file name, replacing what an earlier row
      stored there. */
  function StoreRows<V>(rows: seq<Result<AttachmentRow, string>>, f: AttachmentRow -> V): map<string, V> {
    if rows == [] then map[]
    else
      var m := StoreRows(rows[..|rows| - 1], f);
      match rows[|rows| - 1]
      case Failure(_) => m
      case Success(row) => m[AttachmentFileName(row.path) := f(row)]
  }

  /** The map `build_zotero_map` builds from the attachment rows. */
  function ZoteroMap(db: ItemDb, rows: seq<Result<AttachmentRow, string>>): map<string, ZoteroMetadata> {
    StoreRows(rows, row => Metadata(db, row))
  }

  /** Every name in the map was stored by some row. */
  lemma {:induction false} StoreRowsKeysStored<V>(rows: seq<Result<AttachmentRow, string>>, f: AttachmentRow -> V, name: string)
    requires name in StoreRows(rows, f)
    ensures exists i :: 0 <= i < |rows| && StoredUnder(rows[i], name)
  {
    var last := |rows| - 1;
    var init := rows[..last];
    if StoredUnder(rows[last], name) {
    } else {
      assert name in StoreRows(init, f);
      StoreRowsKeysStored(init, f, name);
      var i :| 0 <= i < |init| && StoredUnder(init[i], name);
      assert init[i] == rows[i];
    }
  }

  /** Every name a row stores under is in the map. */
  lemma {:induction false} StoreRowsKeysPresent<V>(rows: seq<Result<AttachmentRow, string>>, f: AttachmentRow -> V, i: nat, name: string)
    requires i < |rows| && StoredUnder(rows[i], name)
    ensures name in StoreRows(rows, f)
  {
    var last := |rows| - 1;
    if i < last {
      var init := rows[..last];
      assert init[i] == rows[i];
      StoreRowsKeysPresent(init, f, i, name);
    }
  }

  lemma {:induction false} StoreRowsLastWins<V>(rows: seq<Result<AttachmentRow, string>>, f: AttachmentRow -> V, i: nat, name: string)
    requires i < |rows| && StoredUnder(rows[i], name)
    requires forall j :: i < j < |rows| ==> !StoredUnder(rows[j], name)
    ensures name in StoreRows(rows, f)
    ensures StoreRows(rows, f)[name] == f(rows[i].value)
  {
    var last := |rows| - 1;
    if i < last {
      var init := rows[..last];
      assert forall j :: 0 <= j < |init| ==> init[j] == rows[j];
      StoreRowsLastWins(init, f, i, name);
      assert !StoredUnder(rows[last], name);
    }
  }

  /** The keys of the map are the file names of the rows read without
      error. */
  lemma ZoteroMapKeys(db: ItemDb, rows: seq<Result<AttachmentRow, string>>, name: string)
    ensures name in ZoteroMap(db, rows) <==> exists i :: 0 <= i < |rows| && StoredUnder(rows[i], name)
  {
    var f := row => Metadata(db, row);
    if name in ZoteroMap(db, rows) {
      StoreRowsKeysStored(rows, f, name);
    }
    if exists i :: 0 <= i < |rows| && StoredUnder(rows[i], name) {
      var i :| 0 <= i < |rows| && StoredUnder(rows[i], name);
      StoreRowsKeysPresent(rows, f, i, name);
    }
  }

  /** A later row with the same file name replaces an earlier one: the map
      holds the metadata of the last row stored under each name. */
  lemma ZoteroMapLastRowWins(db: ItemDb, rows: seq<Result<AttachmentRow, string>>, i: nat, name: string)
    requires i < |rows| && StoredUnder(rows[i], name)
    requires forall j :: i < j < |rows| ==> !StoredUnder(rows[j], name)
    ensures name in ZoteroMap(db, rows)
    ensures ZoteroMap(db, rows)[name] == Metadata(db, rows[i].value)
  {
    StoreRowsLastWins(rows, row => Metadata(db, row), i, name);
  }

  /** Row `r` was read without error and its attachment has file name `name`. */
  predicate StoredUnder(r: Result<AttachmentRow, string>, name: string) {
    r.Success? && AttachmentFileName(r.value.path) == name
  }

  /** The loop of `build_zotero_map` over the attachment rows. */
  method BuildZoteroMap(db: ItemDb, rows: seq<Result<AttachmentRow, string>>) returns (m: map<string, ZoteroMetadata>)
    ensures m == ZoteroMap(db, rows)
  {
    m := map[];
    for i := 0 to |rows|
      invariant m == ZoteroMap(db, rows[..i])
    {
      assert rows[..i + 1][..i] == rows[..i];
      match rows[i]
      case Failure(_) =>
      case Success(row) =>
        var filename := AttachmentFileName(row.path);
        var pdfAttachmentKey := row.attachmentKey;
        var (itemId, itemKey) := ItemIdentity(row);
        var title := ItemField(db, itemId, "title");
        var date := ItemField(db, itemId, "date");
        var year := ExtractYear(date);
        var authors := FormatCreators(CreatorRows(db, itemId));
        var citekey := Citekey(db, itemKey);
        m := m[filename := ZoteroMetadata(citekey, title, year, authors, ZoteroLink(itemKey), Some(pdfAttachmentKey))];
    }
    assert rows[..|rows|] == rows;
  }
}
