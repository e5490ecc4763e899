/** The records of a LibGen catalog page: what one row shows, and the rows of a page. */
module LibGenRecords {
  import opened Decimals
  import opened LibGenTable
  import opened Results
  import opened Sequences
  import opened Strings
  import Enricher = LibGenEnricher
  import LibGenMetadata
  import LibGenSize

  predicate IsSupported(row: Row) {
    && (forall cell :: cell in row ==> cell.tag == "td")
    && var spans := seq(|row|, i requires 0 <= i < |row| => row[i].colspan);
       spans == [1, 1, 1, 1, 1, 1, 1, 1, 1] || spans == [5, 1, 1, 1, 1]
  }

  const HEADINGS := ["title", "year", "language", "size", "ext", "mirrors"]

  function CellTexts(row: Row): seq<string> {
    seq(|row|, i requires 0 <= i < |row| => Lower(Joined(row[i].parts)))
  }

  function HeaderText(row: Row): string {
    Joined(CellTexts(row))
  }

  predicate IsHeader(row: Row) {
    && row != [] && (forall cell :: cell in row ==> cell.tag == "th")
    && forall heading :: heading in HEADINGS ==> Contains(HeaderText(row), heading)
  }

  // ----- One row -----

  /** An address, looked at for one page: reading it raises an error, it leads elsewhere, or
      it is the page with the value of its one parameter. */
  datatype Reference = Raises | Elsewhere | At(value: string)

  /** How the addresses of links are read: `sameOrigin` for an absolute page of the origin
      and its only parameter, `relative` for a relative page and its id, `path` for the path
      without leading slashes. */
  datatype RowReader = RowReader(
    origin: string,
    sameOrigin: (string, string, string) -> Reference,
    relative: (string, string) -> Reference,
    path: string -> Option<string>)

  const MAX_TITLE := 2000
  const MAX_TEXT := 500
  const EXTENSIONS := {"cb7", "cbr", "cbz", "pdf"}

  predicate IsPositive(text: string) {
    IsCanonical(text) && Parse(text) >= 1
  }

  /** The text of the first link to a page; None for an address that cannot be read before
      it. */
  function FirstText(reader: RowReader, links: seq<Link>, page: string): Option<string> {
    if links == [] then Some("")
    else
      var path := reader.path(links[0].href);
      if path.None? then None
      else if path.value == page then Some(links[0].text)
      else FirstText(reader, links[1..], page)
  }

  /** The edition's title, with the series before it when it does not begin with it. */
  function DisplayTitle(reader: RowReader, links: seq<Link>): Option<string> {
    var series, edition := FirstText(reader, links, "series.php"), FirstText(reader, links, "edition.php");
    if series.None? || edition.None? then None
    else if series.value != "" && edition.value != ""
            && !(Lower(series.value) <= Lower(edition.value)) then
      Some(series.value + " " + edition.value)
    else Some(if edition.value != "" then edition.value else series.value)
  }

  /** The positive id that the first link with one carries. */
  function FirstId(links: seq<Link>, read: string -> Reference): Option<Option<nat>> {
    if links == [] then Some(None)
    else
      match read(links[0].href)
      case Raises => None
      case Elsewhere => FirstId(links[1..], read)
      case At(id) => if IsPositive(id) then Some(Some(Parse(id))) else FirstId(links[1..], read)
  }

  function RelativeIds(reader: RowReader, page: string): string -> Reference {
    href => reader.relative(href, page)
  }

  function FileIds(reader: RowReader): string -> Reference {
    href => reader.sameOrigin(href, "/file.php", "id")
  }

  /** The id of the first relative link to a page that carries a positive one. */
  function LinkedId(reader: RowReader, links: seq<Link>, page: string): Option<Option<nat>> {
    FirstId(links, RelativeIds(reader, page))
  }

  /** The MD5 sum of the first download link of the origin that carries one. */
  function GetReference(reader: RowReader, links: seq<Link>): Option<string> {
    if links == [] then None
    else
      match reader.sameOrigin(links[0].href, "/get.php", "md5")
      case Raises => None
      case Elsewhere => GetReference(reader, links[1..])
      case At(md5) =>
        var folded := Lower(md5);
        if LibGenMetadata.IsMd5(folded) then Some(folded) else GetReference(reader, links[1..])
  }

  /** The file id of the first file link of the origin that carries a positive one. */
  function IdReference(reader: RowReader, links: seq<Link>): Option<Option<nat>> {
    FirstId(links, FileIds(reader))
  }

  function StripDots(text: string): string {
    DropWhile(text, c => c == '.')
  }

  /** The supported extension a cell names; None for an unsupported one. */
  function ReadExtension(text: string): Option<Option<string>> {
    var extension := StripDots(Lower(text));
    if extension == "" || extension == "unknown" then Some(None)
    else if extension in EXTENSIONS then Some(Some(extension))
    else None
  }

  /** What the identity cells of a row say: both titles and the edition. */
  datatype Identity = Identity(displayTitle: string, rawTitle: string, editionId: Option<nat>)

  predicate IsYear(text: string) {
    text == "" || (IsPositive(text) && 1800 <= Parse(text) <= 2200)
  }

  /** The identity of a row of nine cells, with its author, publisher, year and language
      checked; of five cells, from its first alone. */
  function ReadIdentity(reader: RowReader, row: Row): Option<Identity>
    requires |row| == 9 || |row| == 5
  {
    if |row| == 9 then
      var display, secondary := DisplayTitle(reader, row[0].links), Joined(row[0].secondary);
      var edition := LinkedId(reader, row[0].links, "edition.php");
      var series := LinkedId(reader, row[0].links, "series.php");
      if display.None? || edition.None? || series.None? then None
      else if |Joined(row[1].parts)| > MAX_TEXT || |Joined(row[2].parts)| > MAX_TEXT then None
      else if !IsYear(Joined(row[3].parts)) || |Joined(row[4].parts)| > MAX_TEXT then None
      else Some(Identity(display.value, if secondary != "" then secondary else display.value, edition.value))
    else
      var display := Joined(row[0].primary);
      Some(Identity(display, display, None))
  }

  /** The record a row shows; None when it is not supported, or some evidence is missing
      or malformed. */
  function ReadRow(reader: RowReader, row: Row): Option<Enricher.DiscoveredRecord> {
    if !IsSupported(row) then None
    else
      var first := if |row| == 9 then 5 else 1;
      var identity := ReadIdentity(reader, row);
      var pages, size := Joined(row[first].parts), LibGenSize.OptionalSize(Joined(row[first + 1].parts));
      var fileId, md5 := IdReference(reader, row[first + 1].links), GetReference(reader, row[first + 3].links);
      var extension := ReadExtension(Joined(row[first + 2].parts));
      if identity.None? || md5.None? || fileId.None? || size.Err? || extension.None? then None
      else if pages != "" && !IsPositive(pages) then None
      else
        var display, raw := identity.value.displayTitle, identity.value.rawTitle;
        if display == "" || raw == "" || |display| > MAX_TITLE || |raw| > MAX_TITLE then None
        else
          Some(Enricher.DiscoveredRecord(
                 reader.origin, display, raw,
                 LibGenMetadata.Expectation(
                   md5.value, fileId.value, identity.value.editionId,
                   if size.value.Some? then Some(size.value.value.bytes) else None,
                   if size.value.Some? then Some(size.value.value.tolerance) else None,
                   extension.value)))
  }

  // ----- One page -----

  function RowRecords(reader: RowReader, rows: seq<Row>): seq<Enricher.DiscoveredRecord> {
    if rows == [] then []
    else
      var read := ReadRow(reader, rows[|rows| - 1]);
      RowRecords(reader, rows[..|rows| - 1]) + if read.Some? then [read.value] else []
  }

  predicate HasSupported(rows: seq<Row>) {
    exists row :: row in rows && IsSupported(row)
  }

  /** The records of a page; None when its layout is not recognized. */
  function Records(reader: RowReader, catalog: Catalog): Option<seq<Enricher.DiscoveredRecord>> {
    if !catalog.found || catalog.rows == [] || !IsHeader(catalog.rows[0]) then None
    else
      var rows := catalog.rows[1..];
      if rows != [] && !HasSupported(rows) then None else Some(FirstByKey(RowRecords(reader, rows), Enricher.Md5))
  }

  lemma RecordsStep(reader: RowReader, rows: seq<Row>, i: nat)
    requires i < |rows|
    ensures var read := ReadRow(reader, rows[i]);
      var before, after := RowRecords(reader, rows[..i]), RowRecords(reader, rows[..i + 1]);
      && FirstByKey(after, Enricher.Md5) == FirstByKey(before, Enricher.Md5)
         + (if read.None? || Enricher.Md5(read.value) in KeysOf(before, Enricher.Md5) then [] else [read.value])
      && KeysOf(after, Enricher.Md5)
         == KeysOf(before, Enricher.Md5) + if read.None? then {} else {Enricher.Md5(read.value)}
  {
    hide ReadRow, FirstByKey, KeysOf;
    assert rows[..i + 1][..i] == rows[..i];
    var before, read := RowRecords(reader, rows[..i]), ReadRow(reader, rows[i]);
    if read.Some? {
      FirstByKeyStep(before, read.value, Enricher.Md5);
    } else {
      assert before + [] == before;
    }
  }

  method ParseSearchRows(reader: RowReader, catalog: Catalog)
    returns (records: Option<seq<Enricher.DiscoveredRecord>>)
    ensures records == Records(reader, catalog)
  {
    hide IsSupported, IsHeader, HasSupported, FirstByKey, KeysOf, ReadRow, RowRecords, Enricher.Md5;
    if !catalog.found || catalog.rows == [] || !IsHeader(catalog.rows[0]) {
      return None;
    }
    var rows := catalog.rows[1..];
    if rows != [] && !HasSupported(rows) {
      return None;
    }
    var found, seen := [], {};
    NoRecords(reader);
    for i := 0 to |rows|
      invariant found == FirstByKey(RowRecords(reader, rows[..i]), Enricher.Md5)
      invariant seen == KeysOf(RowRecords(reader, rows[..i]), Enricher.Md5)
    {
      var read := ReadRow(reader, rows[i]);
      RecordsStep(reader, rows, i);
      if read.Some? && Enricher.Md5(read.value) !in seen {
        seen := seen + {Enricher.Md5(read.value)};
        found := found + [read.value];
      }
    }
    assert rows[..|rows|] == rows;
    return Some(found);
  }

  lemma NoRecords(reader: RowReader)
    ensures FirstByKey(RowRecords(reader, []), Enricher.Md5) == [] && KeysOf(RowRecords(reader, []), Enricher.Md5) == {}
  {
  }

  /** The records of a page have distinct MD5 sums, as batched enrichment needs. */
  lemma RecordsSuitEnrichment(reader: RowReader, catalog: Catalog)
    requires Records(reader, catalog).Some?
    ensures Enricher.DistinctMd5s(Records(reader, catalog).value)
  {
    var all := RowRecords(reader, catalog.rows[1..]);
    FirstByKeyDistinct(all, Enricher.Md5);
    var records := Records(reader, catalog).value;
    assert forall i, j :: 0 <= i < j < |records| ==> Enricher.Md5(records[i]) != Enricher.Md5(records[j]);
  }

  lemma {:induction false} RowRecordsAppend(reader: RowReader, a: seq<Row>, b: seq<Row>)
    ensures RowRecords(reader, a + b) == RowRecords(reader, a) + RowRecords(reader, b)
  {
    hide ReadRow;
    if b == [] {
      assert a + b == a;
    } else {
      var front := b[..|b| - 1];
      assert (a + b)[..|a + b| - 1] == a + front;
      RowRecordsAppend(reader, a, front);
      var read := ReadRow(reader, b[|b| - 1]);
      var last := if read.Some? then [read.value] else [];
      assert (RowRecords(reader, a) + RowRecords(reader, front)) + last
          == RowRecords(reader, a) + (RowRecords(reader, front) + last);
    }
  }

  /** A row that cannot be read changes nothing exactly when the page has a supported row
      without it, or when the row is supported just in case the page has no rows. */
  lemma UnreadableRowIsIsolated(reader: RowReader, catalog: Catalog, bad: Row, at: nat)
    requires 0 < at <= |catalog.rows| && ReadRow(reader, bad).None?
    requires catalog.found && IsHeader(catalog.rows[0])
    ensures var rows := catalog.rows[1..];
      Records(reader, catalog.(rows := catalog.rows[..at] + [bad] + catalog.rows[at..])) == Records(reader, catalog)
      <==> HasSupported(rows) || ((rows == []) == IsSupported(bad))
  {
    hide IsSupported, IsHeader;
    var rows := catalog.rows[1..];
    var a, b := rows[..at - 1], rows[at - 1..];
    assert rows == a + b;
    var longer := catalog.rows[..at] + [bad] + catalog.rows[at..];
    assert longer[0] == catalog.rows[0] && longer[1..] == a + [bad] + b;
    BadRowSupport(a, bad, b);
    BadRowRecords(reader, a, bad, b);
    if !HasSupported(rows) {
      NoSupportedNoRecords(reader, rows);
    }
  }

  lemma BadRowSupport(a: seq<Row>, bad: Row, b: seq<Row>)
    ensures HasSupported(a + [bad] + b) <==> HasSupported(a + b) || IsSupported(bad)
  {
    hide IsSupported;
    var rows, longer := a + b, a + [bad] + b;
    assert forall row :: row in longer <==> row in rows || row == bad;
    assert bad in longer;
  }

  lemma BadRowRecords(reader: RowReader, a: seq<Row>, bad: Row, b: seq<Row>)
    requires ReadRow(reader, bad).None?
    ensures RowRecords(reader, a + [bad] + b) == RowRecords(reader, a + b)
  {
    hide ReadRow;
    RowRecordsAppend(reader, a + [bad], b);
    RowRecordsAppend(reader, a, [bad]);
    RowRecordsAppend(reader, a, b);
    assert [bad][..0] == [];
    assert RowRecords(reader, [bad]) == [];
    assert RowRecords(reader, a) + [] == RowRecords(reader, a);
  }

  lemma {:induction false} NoSupportedNoRecords(reader: RowReader, rows: seq<Row>)
    requires !HasSupported(rows)
    ensures RowRecords(reader, rows) == []
  {
    hide IsSupported;
    if rows != [] {
      var front, last := rows[..|rows| - 1], rows[|rows| - 1];
      assert last in rows && forall row :: row in front ==> row in rows;
      NoSupportedNoRecords(reader, front);
    }
  }

  // ----- What the records of a page are -----

  lemma {:induction false} FirstIdIsPositive(links: seq<Link>, read: string -> Reference)
    ensures FirstId(links, read) != Some(Some(0))
  {
    if links != [] {
      FirstIdIsPositive(links[1..], read);
    }
  }

  lemma {:induction false} GetReferenceIsMd5(reader: RowReader, links: seq<Link>)
    ensures GetReference(reader, links).Some? ==> LibGenMetadata.IsMd5(GetReference(reader, links).value)
  {
    if links != [] {
      GetReferenceIsMd5(reader, links[1..]);
    }
  }

  lemma ExtensionIsPlain(text: string)
    ensures var extension := ReadExtension(text);
      extension.Some? && extension.value.Some? ==> extension.value.value != "" && ':' !in extension.value.value
  {
  }

  /** The size cell of a supported row; extension and download links come behind it. */
  function SizeAt(row: Row): nat {
    if |row| == 9 then 6 else 2
  }

  function SizeText(row: Row): string
    requires |row| == 9 || |row| == 5
  {
    Joined(row[SizeAt(row)].parts)
  }

  lemma ReadRowFields(reader: RowReader, row: Row)
    requires ReadRow(reader, row).Some?
    ensures |row| == 9 || |row| == 5
    ensures var record, at := ReadRow(reader, row).value, SizeAt(row);
      && record.origin == reader.origin
      && Some(record.expected.md5) == GetReference(reader, row[at + 2].links)
      && Some(record.expected.fileId) == IdReference(reader, row[at].links)
      && (record.expected.editionId.None?
          || Some(record.expected.editionId) == LinkedId(reader, row[0].links, "edition.php"))
      && Some(record.expected.extension) == ReadExtension(Joined(row[at + 1].parts))
      && LibGenSize.OptionalSize(SizeText(row))
         == (if record.expected.sizeBytes.None? || record.expected.sizeTolerance.None? then Ok(None)
             else Ok(Some(LibGenSize.Size(record.expected.sizeBytes.value, record.expected.sizeTolerance.value))))
      && (record.expected.sizeBytes.Some? <==> record.expected.sizeTolerance.Some?)
  {
    hide IdReference, GetReference, LinkedId, DisplayTitle, ReadExtension, LibGenSize.OptionalSize;
    hide IsYear, IsPositive, Joined;
  }

  /** Every record is a parsed row of its origin; its size and tolerance come together, and
      it is sound exactly unless its size cell reads as zero bytes without tolerance. */
  lemma RecordsAreParsed(reader: RowReader, row: Row)
    requires ReadRow(reader, row).Some?
    ensures var record := ReadRow(reader, row).value;
      && record.origin == reader.origin && Enricher.ParsedRow(record.expected)
      && (record.expected.sizeBytes.Some? <==> record.expected.sizeTolerance.Some?)
    ensures (|row| == 9 || |row| == 5)
      && (Enricher.SoundRow(reader.origin, ReadRow(reader, row).value.expected) <==>
            LibGenSize.OptionalSize(SizeText(row)) != Ok(Some(LibGenSize.Size(0, 0))))
  {
    hide ReadRow, Enricher.ParsedRow, Enricher.SoundRow, LibGenSize.OptionalSize, Joined, SizeText;
    hide IdReference, GetReference, LinkedId, ReadExtension;
    ReadRowFields(reader, row);
    RecordIsParsed(reader, row);
    SoundUnlessNothingShown(reader.origin, ReadRow(reader, row).value.expected);
  }

  lemma RecordIsParsed(reader: RowReader, row: Row)
    requires ReadRow(reader, row).Some?
    ensures Enricher.ParsedRow(ReadRow(reader, row).value.expected)
  {
    hide ReadRow, FirstId, GetReference, ReadExtension;
    hide LibGenMetadata.IsMd5, LibGenSize.OptionalSize, Joined;
    ReadRowFields(reader, row);
    var at := SizeAt(row);
    FirstIdIsPositive(row[0].links, RelativeIds(reader, "edition.php"));
    FirstIdIsPositive(row[at].links, FileIds(reader));
    GetReferenceIsMd5(reader, row[at + 2].links);
    ExtensionIsPlain(Joined(row[at + 1].parts));
  }

  lemma SoundUnlessNothingShown(origin: string, e: LibGenMetadata.Expectation)
    requires Enricher.ParsedRow(e) && (e.sizeBytes.Some? <==> e.sizeTolerance.Some?)
    ensures Enricher.SoundRow(origin, e) <==> !(e.sizeBytes == Some(0) && e.sizeTolerance == Some(0))
  {
    hide Enricher.ParsedRow;
  }

  lemma {:induction false} RowRecordsComeFromRows(reader: RowReader, rows: seq<Row>,
                                                  record: Enricher.DiscoveredRecord)
    returns (row: Row)
    requires record in RowRecords(reader, rows)
    ensures row in rows && ReadRow(reader, row) == Some(record)
  {
    hide ReadRow;
    var front, last := rows[..|rows| - 1], rows[|rows| - 1];
    if ReadRow(reader, last) == Some(record) {
      row := last;
    } else {
      row := RowRecordsComeFromRows(reader, front, record);
    }
  }

  /** The rows of one page. */
  function PageFamily(records: seq<Enricher.DiscoveredRecord>): Enricher.Family {
    (origin, expected) => exists record :: record in records && record.origin == origin && record.expected == expected
  }

  /** Whatever sizes a page shows, its own rows are never confused by the cache: each has
      its own MD5 sum. */
  lemma PageIsUnambiguous(reader: RowReader, catalog: Catalog)
    requires Records(reader, catalog).Some?
    ensures Enricher.Unambiguous(PageFamily(Records(reader, catalog).value))
  {
    var records := Records(reader, catalog).value;
    RecordsSuitEnrichment(reader, catalog);
    hide Records, ReadRow;
    forall record | record in records ensures Enricher.ParsedRow(record.expected) {
      PageRecordIsParsed(reader, catalog, record);
    }
    DistinctRowsAreUnambiguous(records);
  }

  lemma PageRecordIsParsed(reader: RowReader, catalog: Catalog, record: Enricher.DiscoveredRecord)
    requires Records(reader, catalog).Some? && record in Records(reader, catalog).value
    ensures Enricher.ParsedRow(record.expected)
  {
    hide ReadRow, IsHeader, IsSupported;
    FirstByKeyDistinct(RowRecords(reader, catalog.rows[1..]), Enricher.Md5);
    var row := RowRecordsComeFromRows(reader, catalog.rows[1..], record);
    RecordsAreParsed(reader, row);
  }

  lemma DistinctRowsAreUnambiguous(records: seq<Enricher.DiscoveredRecord>)
    requires Enricher.DistinctMd5s(records) && Enricher.ParsedRows(records)
    ensures Enricher.Unambiguous(PageFamily(records))
  {
    hide Enricher.FileCacheKey;
    var family := PageFamily(records);
    forall origin: string, e1: LibGenMetadata.Expectation, e2: LibGenMetadata.Expectation |
      family(origin, e1) && family(origin, e2)
      && Enricher.FileCacheKey(origin, e1) == Enricher.FileCacheKey(origin, e2)
      ensures e1.sizeBytes == e2.sizeBytes
    {
      Enricher.FileKeyFields(origin, e1, origin, e2);
      var a :| a in records && a.expected == e1;
      var b :| b in records && b.expected == e2;
      var i :| 0 <= i < |records| && records[i] == a;
      var j :| 0 <= j < |records| && records[j] == b;
      assert i == j;
    }
  }

  // ----- A page without a supported row -----

  function HeaderCell(heading: string): Cell {
    Cell("th", 1, [heading], [heading], [], [])
  }

  const HEADER_ROW: Row := seq(|HEADINGS|, i requires 0 <= i < |HEADINGS| => HeaderCell(HEADINGS[i]))

  lemma {:induction false} ContainsBehind(before: string, text: string, part: string)
    requires Contains(text, part)
    ensures Contains(before + text, part)
  {
    if before == "" {
      assert before + text == text;
    } else {
      assert (before + text)[1..] == before[1..] + text;
      ContainsBehind(before[1..], text, part);
    }
  }

  lemma {:induction false} ContainsBefore(text: string, part: string, after: string)
    requires Contains(text, part)
    ensures Contains(text + after, part)
  {
    if part <= text {
      assert part <= text + after;
    } else {
      assert (text + after)[1..] == text[1..] + after;
      ContainsBefore(text[1..], part, after);
    }
  }

  lemma {:induction false} JoinedContains(parts: seq<string>, i: nat)
    requires i < |parts|
    ensures Contains(Joined(parts), parts[i])
  {
    if |parts| > 1 {
      var front, last := parts[..|parts| - 1], parts[|parts| - 1];
      if i < |front| {
        JoinedContains(front, i);
        ContainsBefore(Joined(front), parts[i], " " + last);
        assert Joined(parts) == Joined(front) + (" " + last);
      } else {
        ContainsBehind(Joined(front) + " ", last, last);
      }
    }
  }

  lemma HeadingsAreLower(i: nat)
    requires i < |HEADINGS|
    ensures Lower(Joined([HEADINGS[i]])) == HEADINGS[i]
  {
    hide Lower;
    var heading := HEADINGS[i];
    assert forall j :: 0 <= j < |heading| ==> !('A' <= heading[j] <= 'Z');
    assert forall j :: 0 <= j < |heading| ==> Lower(heading)[j] == heading[j];
  }

  lemma HeaderNamesItsColumns()
    ensures IsHeader(HEADER_ROW)
  {
    hide Contains, Joined, Lower;
    forall i: nat | i < |HEADINGS| ensures Lower(Joined(HEADER_ROW[i].parts)) == HEADINGS[i] {
      HeadingsAreLower(i);
    }
    assert CellTexts(HEADER_ROW) == HEADINGS;
    forall heading | heading in HEADINGS ensures Contains(Joined(HEADINGS), heading) {
      var i :| 0 <= i < |HEADINGS| && HEADINGS[i] == heading;
      JoinedContains(HEADINGS, i);
    }
  }

  /** A page of a header alone has no records; one unsupported row makes it unreadable. */
  lemma UnsupportedRowHidesThePage(reader: RowReader)
    ensures var page := EMPTY_CATALOG.(found := true, rows := [HEADER_ROW]);
      && Records(reader, page) == Some([])
      && Records(reader, page.(rows := [HEADER_ROW] + [HEADER_ROW])) == None
  {
    HeaderNamesItsColumns();
    hide IsHeader;
    assert [HEADER_ROW][1..] == [] && ([HEADER_ROW] + [HEADER_ROW])[1..] == [HEADER_ROW];
    assert !IsSupported(HEADER_ROW) by {
      assert HEADER_ROW[0] in HEADER_ROW && "th" != "td";
    }
    NoRecords(reader);
  }

  // ----- What a row shows, told by its cells alone -----

  /** The place of the first link that is not passed over, and is wanted. */
  ghost predicate FirstAt(links: seq<Link>, i: nat, wanted: Link -> bool, passed: Link -> bool) {
    i < |links| && wanted(links[i]) && forall j :: 0 <= j < i ==> passed(links[j])
  }

  ghost predicate Finds(links: seq<Link>, wanted: Link -> bool, passed: Link -> bool) {
    exists i: nat :: FirstAt(links, i, wanted, passed)
  }

  function Md5At(reader: RowReader, link: Link): Reference {
    reader.sameOrigin(link.href, "/get.php", "md5")
  }

  function HasMd5(reader: RowReader, md5: string): Link -> bool {
    (link: Link) => Md5At(reader, link).At? && Lower(Md5At(reader, link).value) == md5 && LibGenMetadata.IsMd5(md5)
  }

  function LacksMd5(reader: RowReader): Link -> bool {
    (link: Link) => var found := Md5At(reader, link);
      found.Elsewhere? || (found.At? && !LibGenMetadata.IsMd5(Lower(found.value)))
  }

  function HasId(read: string -> Reference, id: nat): Link -> bool {
    (link: Link) => read(link.href) == At(Print(id)) && id > 0
  }

  function LacksId(read: string -> Reference): Link -> bool {
    (link: Link) => read(link.href).Elsewhere? || (read(link.href).At? && !IsPositive(read(link.href).value))
  }

  function LeadsTo(reader: RowReader, page: string, text: string): Link -> bool {
    (link: Link) => reader.path(link.href) == Some(page) && link.text == text
  }

  function LeadsElsewhere(reader: RowReader, page: string): Link -> bool {
    (link: Link) => reader.path(link.href).Some? && reader.path(link.href) != Some(page)
  }

  /** The first download link of the origin with an MD5 sum has this one. */
  ghost predicate GivesMd5(reader: RowReader, links: seq<Link>, md5: string) {
    Finds(links, HasMd5(reader, md5), LacksMd5(reader))
  }

  /** The first address with a positive id has this one, or none has any. */
  ghost predicate GivesId(links: seq<Link>, read: string -> Reference, id: Option<nat>) {
    if id.Some? then Finds(links, HasId(read, id.value), LacksId(read))
    else forall link :: link in links ==> LacksId(read)(link)
  }

  /** The first link to a page has this text, or none leads there and the text is blank. */
  ghost predicate GivesText(reader: RowReader, links: seq<Link>, page: string, text: string) {
    || Finds(links, LeadsTo(reader, page, text), LeadsElsewhere(reader, page))
    || (text == "" && forall link :: link in links ==> LeadsElsewhere(reader, page)(link))
  }

  /** Behind any dots: one of the four supported extensions, in any case, or none at all. */
  ghost predicate GivesExtension(text: string, extension: Option<string>) {
    exists dots: string, rest: string ::
      && Lower(text) == dots + rest && (forall c :: c in dots ==> c == '.') && (rest != "" ==> rest[0] != '.')
      && (if extension.Some? then rest == extension.value && rest in {"cb7", "cbr", "cbz", "pdf"}
          else rest == "" || rest == "unknown")
  }

  ghost predicate NineColumns(row: Row) {
    |row| == 9 && forall i :: 0 <= i < 9 ==> row[i].tag == "td" && row[i].colspan == 1
  }

  ghost predicate FiveColumns(row: Row) {
    |row| == 5 && forall i :: 0 <= i < 5 ==> row[i].tag == "td" && row[i].colspan == if i == 0 then 5 else 1
  }

  /** The titles and the edition of a row of nine cells: the first edition's title, with the
      first series before it unless it begins with that in any case; and the small print, if
      there is any. */
  ghost predicate NamesItself(reader: RowReader, row: Row, display: string, raw: string, editionId: Option<nat>)
    requires |row| == 9
  {
    && GivesId(row[0].links, RelativeIds(reader, "edition.php"), editionId)
    && (exists id :: GivesId(row[0].links, RelativeIds(reader, "series.php"), id))
    && (exists series, edition ::
          && GivesText(reader, row[0].links, "series.php", series)
          && GivesText(reader, row[0].links, "edition.php", edition)
          && display == if edition == "" then series
                        else if series == "" || Lower(series) <= Lower(edition) then edition
                        else series + " " + edition)
    && raw == (if Joined(row[0].secondary) == "" then display else Joined(row[0].secondary))
    && |Joined(row[1].parts)| <= 500 && |Joined(row[2].parts)| <= 500 && |Joined(row[4].parts)| <= 500
    && (Joined(row[3].parts) == ""
        || (IsPositive(Joined(row[3].parts)) && 1800 <= Parse(Joined(row[3].parts)) <= 2200))
  }

  ghost predicate ShowsRecord(reader: RowReader, row: Row, record: Enricher.DiscoveredRecord) {
    && (NineColumns(row) || FiveColumns(row))
    && var at, expected := if |row| == 9 then 6 else 2, record.expected;
       && record.origin == reader.origin
       && GivesMd5(reader, row[at + 2].links, expected.md5)
       && GivesId(row[at].links, FileIds(reader), expected.fileId)
       && (expected.sizeBytes.Some? <==> expected.sizeTolerance.Some?)
       && LibGenSize.OptionalSize(Joined(row[at].parts))
          == Ok(if expected.sizeBytes.Some? && expected.sizeTolerance.Some?
                then Some(LibGenSize.Size(expected.sizeBytes.value, expected.sizeTolerance.value)) else None)
       && GivesExtension(Joined(row[at + 1].parts), expected.extension)
       && (Joined(row[at - 1].parts) == "" || IsPositive(Joined(row[at - 1].parts)))
       && 1 <= |record.displayTitle| <= 2000 && 1 <= |record.rawTitle| <= 2000
       && if |row| == 9 then NamesItself(reader, row, record.displayTitle, record.rawTitle, expected.editionId)
          else expected.editionId.None? && record.displayTitle == record.rawTitle == Joined(row[0].primary)
  }

  lemma FindsStep(links: seq<Link>, wanted: Link -> bool, passed: Link -> bool)
    requires links != []
    ensures Finds(links, wanted, passed) <==>
      wanted(links[0]) || (passed(links[0]) && Finds(links[1..], wanted, passed))
  {
    var rest := links[1..];
    if wanted(links[0]) {
      assert FirstAt(links, 0, wanted, passed);
    } else if passed(links[0]) && Finds(rest, wanted, passed) {
      var i: nat :| FirstAt(rest, i, wanted, passed);
      assert forall j :: 0 < j < i + 1 ==> links[j] == rest[j - 1];
      assert FirstAt(links, i + 1, wanted, passed);
    } else if Finds(links, wanted, passed) {
      var i: nat :| FirstAt(links, i, wanted, passed);
      assert forall j :: 0 <= j < i - 1 ==> rest[j] == links[j + 1];
      assert FirstAt(rest, i - 1, wanted, passed);
    }
  }

  lemma AllInRest(links: seq<Link>, passed: Link -> bool)
    requires links != []
    ensures (forall link :: link in links ==> passed(link)) <==>
      passed(links[0]) && forall link :: link in links[1..] ==> passed(link)
  {
    assert links == [links[0]] + links[1..];
  }

  lemma {:induction false} GetReferenceExactly(reader: RowReader, links: seq<Link>, md5: string)
    ensures GetReference(reader, links) == Some(md5) <==> GivesMd5(reader, links, md5)
  {
    hide LibGenMetadata.IsMd5, Finds, Lower;
    if links == [] {
      NothingToFind(HasMd5(reader, md5), LacksMd5(reader));
    } else {
      FindsStep(links, HasMd5(reader, md5), LacksMd5(reader));
      GetReferenceExactly(reader, links[1..], md5);
    }
  }

  lemma NothingToFind(wanted: Link -> bool, passed: Link -> bool)
    ensures !Finds([], wanted, passed)
  {
  }

  lemma PositiveExactly(text: string, id: nat)
    ensures text == Print(id) && id > 0 <==> IsPositive(text) && Parse(text) == id
  {
    hide IsCanonical, Print, Parse;
    ParsePrint(id);
    if IsPositive(text) {
      PrintParse(text);
    }
  }

  lemma {:induction false} FirstIdExactly(links: seq<Link>, read: string -> Reference, id: Option<nat>)
    ensures FirstId(links, read) == Some(id) <==> GivesId(links, read, id)
  {
    hide Print, Parse, IsPositive, Finds;
    if links == [] {
      if id.Some? {
        NothingToFind(HasId(read, id.value), LacksId(read));
      }
    } else {
      var first := read(links[0].href);
      FirstIdExactly(links[1..], read, id);
      AllInRest(links, LacksId(read));
      if id.Some? {
        FindsStep(links, HasId(read, id.value), LacksId(read));
        if first.At? {
          PositiveExactly(first.value, id.value);
        }
      }
    }
  }

  lemma {:induction false} FirstTextExactly(reader: RowReader, links: seq<Link>, page: string, text: string)
    ensures FirstText(reader, links, page) == Some(text) <==> GivesText(reader, links, page, text)
  {
    hide Finds;
    if links == [] {
      NothingToFind(LeadsTo(reader, page, text), LeadsElsewhere(reader, page));
    } else {
      FindsStep(links, LeadsTo(reader, page, text), LeadsElsewhere(reader, page));
      AllInRest(links, LeadsElsewhere(reader, page));
      FirstTextExactly(reader, links[1..], page, text);
    }
  }

  lemma ReadExtensionExactly(text: string, extension: Option<string>)
    ensures ReadExtension(text) == Some(extension) <==> GivesExtension(text, extension)
  {
    var lower := Lower(text);
    var dots := DotsSplit(lower);
    hide StripDots, Lower;
    forall before: string, rest: string | lower == before + rest && (forall c :: c in before ==> c == '.')
                                          && (rest != "" ==> rest[0] != '.')
      ensures rest == StripDots(lower)
    {
      OneDotsSplit(before, rest);
    }
  }

  lemma DotsSplit(text: string) returns (dots: string)
    ensures text == dots + StripDots(text) && forall c :: c in dots ==> c == '.'
    ensures StripDots(text) != "" ==> StripDots(text)[0] != '.'
  {
    var dot := (c: char) => c == '.';
    DroppedWhile(text, dot);
    dots := TakeWhile(text, dot);
  }

  lemma OneDotsSplit(dots: string, rest: string)
    requires (forall c :: c in dots ==> c == '.') && (rest != "" ==> rest[0] != '.')
    ensures StripDots(dots + rest) == rest
  {
    TakeWhileAppend(dots, rest, (c: char) => c == '.');
  }

  lemma SupportedExactly(row: Row)
    ensures IsSupported(row) <==> NineColumns(row) || FiveColumns(row)
  {
    var spans := seq(|row|, i requires 0 <= i < |row| => row[i].colspan);
    if NineColumns(row) {
      assert spans == [1, 1, 1, 1, 1, 1, 1, 1, 1];
    }
    if FiveColumns(row) {
      assert spans == [5, 1, 1, 1, 1];
    }
    if spans == [1, 1, 1, 1, 1, 1, 1, 1, 1] || spans == [5, 1, 1, 1, 1] {
      assert forall i :: 0 <= i < |row| ==> spans[i] == row[i].colspan && row[i] in row;
    }
  }

  lemma IdentityExactly(reader: RowReader, row: Row, display: string, raw: string, editionId: Option<nat>)
    requires |row| == 9
    ensures ReadIdentity(reader, row) == Some(Identity(display, raw, editionId)) <==>
      NamesItself(reader, row, display, raw, editionId)
  {
    hide IsPositive, Joined, FirstText, FirstId, Lower, GivesText, GivesId;
    var links := row[0].links;
    var series, edition := FirstText(reader, links, "series.php"), FirstText(reader, links, "edition.php");
    forall text ensures series == Some(text) <==> GivesText(reader, links, "series.php", text) {
      FirstTextExactly(reader, links, "series.php", text);
    }
    forall text ensures edition == Some(text) <==> GivesText(reader, links, "edition.php", text) {
      FirstTextExactly(reader, links, "edition.php", text);
    }
    FirstIdExactly(links, RelativeIds(reader, "edition.php"), editionId);
    forall id ensures LinkedId(reader, links, "series.php") == Some(id) <==>
                      GivesId(links, RelativeIds(reader, "series.php"), id) {
      FirstIdExactly(links, RelativeIds(reader, "series.php"), id);
    }
  }

  /** A row gives exactly the record its cells show. */
  lemma RowIsReadExactly(reader: RowReader, row: Row, record: Enricher.DiscoveredRecord)
    ensures ReadRow(reader, row) == Some(record) <==> ShowsRecord(reader, row, record)
  {
    hide IsPositive, Joined, IsSupported, NineColumns, FiveColumns, GetReference, FirstId, ReadExtension, ReadIdentity,
      GivesMd5, GivesId, GivesExtension, NamesItself, LibGenSize.OptionalSize;
    SupportedExactly(row);
    if |row| == 9 || |row| == 5 {
      var at, expected := if |row| == 9 then 6 else 2, record.expected;
      GetReferenceExactly(reader, row[at + 2].links, expected.md5);
      FirstIdExactly(row[at].links, FileIds(reader), expected.fileId);
      ReadExtensionExactly(Joined(row[at + 1].parts), expected.extension);
      if |row| == 9 {
        IdentityExactly(reader, row, record.displayTitle, record.rawTitle, expected.editionId);
      } else {
        ShortIdentity(reader, row);
      }
    }
    SupportedLength(row);
  }

  lemma ShortIdentity(reader: RowReader, row: Row)
    requires |row| == 5
    ensures ReadIdentity(reader, row) == Some(Identity(Joined(row[0].primary), Joined(row[0].primary), None))
  {
  }

  lemma SupportedLength(row: Row)
    ensures NineColumns(row) || FiveColumns(row) ==> |row| == 9 || |row| == 5
  {
  }

  // ----- What a page shows -----

  /** The row is the first to show a record with this MD5 sum, and shows this one. */
  ghost predicate FirstShown(reader: RowReader, rows: seq<Row>, i: nat, record: Enricher.DiscoveredRecord) {
    && i < |rows| && ShowsRecord(reader, rows[i], record)
    && forall j :: 0 <= j < i ==> !ShowsMd5(reader, rows[j], record.expected.md5)
  }

  ghost predicate ShowsMd5(reader: RowReader, row: Row, md5: string) {
    exists record :: ShowsRecord(reader, row, record) && record.expected.md5 == md5
  }

  lemma RowShows(reader: RowReader, row: Row)
    ensures forall record :: ShowsRecord(reader, row, record) <==> ReadRow(reader, row) == Some(record)
    ensures forall md5 :: ShowsMd5(reader, row, md5) <==>
      ReadRow(reader, row).Some? && ReadRow(reader, row).value.expected.md5 == md5
  {
    hide ReadRow, ShowsRecord;
    forall record ensures ShowsRecord(reader, row, record) <==> ReadRow(reader, row) == Some(record) {
      RowIsReadExactly(reader, row, record);
    }
  }

  lemma {:induction false} KeysAreShown(reader: RowReader, rows: seq<Row>, md5: string)
    ensures md5 in KeysOf(RowRecords(reader, rows), Enricher.Md5) <==>
      exists i :: 0 <= i < |rows| && ShowsMd5(reader, rows[i], md5)
  {
    hide ReadRow, ShowsMd5, FirstByKey, KeysOf;
    if rows == [] {
      NoRecords(reader);
    } else {
      var n := |rows| - 1;
      KeysAreShown(reader, rows[..n], md5);
      RecordsStep(reader, rows, n);
      RowShows(reader, rows[n]);
      assert rows[..n + 1] == rows;
      assert forall i :: 0 <= i < n ==> rows[..n][i] == rows[i];
    }
  }

  lemma {:induction false} ListsTheFirstShown(reader: RowReader, rows: seq<Row>, record: Enricher.DiscoveredRecord)
    ensures record in FirstByKey(RowRecords(reader, rows), Enricher.Md5) <==>
      exists i: nat :: FirstShown(reader, rows, i, record)
  {
    hide ReadRow, ShowsRecord, ShowsMd5, FirstByKey, KeysOf;
    if rows == [] {
      NoRecords(reader);
    } else {
      var n := |rows| - 1;
      var front := rows[..n];
      ListsTheFirstShown(reader, front, record);
      KeysAreShown(reader, front, record.expected.md5);
      RecordsStep(reader, rows, n);
      RowShows(reader, rows[n]);
      assert rows[..n + 1] == rows;
      assert forall i :: 0 <= i < n ==> front[i] == rows[i];
      assert forall i: nat :: i < n ==> (FirstShown(reader, rows, i, record) <==> FirstShown(reader, front, i, record));
      assert FirstShown(reader, rows, n, record) <==>
        ReadRow(reader, rows[n]) == Some(record)
        && record.expected.md5 !in KeysOf(RowRecords(reader, front), Enricher.Md5);
    }
  }

  /** The records of a page are exactly those its rows are the first to show. */
  lemma RecordsExactly(reader: RowReader, catalog: Catalog, record: Enricher.DiscoveredRecord)
    requires Records(reader, catalog).Some?
    ensures record in Records(reader, catalog).value <==>
      exists i: nat :: FirstShown(reader, catalog.rows[1..], i, record)
  {
    hide IsHeader, IsSupported, HasSupported, FirstByKey, RowRecords, FirstShown;
    ListsTheFirstShown(reader, catalog.rows[1..], record);
  }

  /** A page is refused exactly without a catalog table, without a header that names the six
      columns, or with rows of which none has a supported layout. */
  lemma PageIsRefusedExactly(reader: RowReader, catalog: Catalog)
    ensures Records(reader, catalog).None? <==>
      || !catalog.found || catalog.rows == [] || catalog.rows[0] == []
      || (exists cell :: cell in catalog.rows[0] && cell.tag != "th")
      || !NamesSixColumns(HeaderText(catalog.rows[0]))
      || (|catalog.rows| > 1 && forall row :: row in catalog.rows[1..] ==> !NineColumns(row) && !FiveColumns(row))
  {
    hide FirstByKey, RowRecords, NineColumns, FiveColumns, IsSupported, Contains, HeaderText, IsHeader, HasSupported;
    if catalog.rows != [] {
      HeaderExactly(catalog.rows[0]);
      SomeSupportedExactly(catalog.rows[1..]);
    }
  }

  lemma SomeSupportedExactly(rows: seq<Row>)
    ensures !HasSupported(rows) <==> forall row :: row in rows ==> !NineColumns(row) && !FiveColumns(row)
  {
    hide NineColumns, FiveColumns, IsSupported;
    forall row | row in rows ensures IsSupported(row) <==> NineColumns(row) || FiveColumns(row) {
      SupportedExactly(row);
    }
  }

  predicate NamesSixColumns(text: string) {
    && Contains(text, "title") && Contains(text, "year") && Contains(text, "language")
    && Contains(text, "size") && Contains(text, "ext") && Contains(text, "mirrors")
  }

  lemma HeaderExactly(row: Row)
    ensures !IsHeader(row) <==>
      row == [] || (exists cell :: cell in row && cell.tag != "th") || !NamesSixColumns(HeaderText(row))
  {
    hide Contains, HeaderText;
    var names := HEADINGS;
    assert names[0] == "title" && names[1] == "year" && names[2] == "language";
    assert names[3] == "size" && names[4] == "ext" && names[5] == "mirrors" && |names| == 6;
  }
}
