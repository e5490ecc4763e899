/** Enrichment of discovered rows with keyed metadata, one row at a time or batched,
    through a shared cache. */
module LibGenEnricher {
  import opened Results
  import opened Decimals
  import opened OrderedDicts
  import opened TtlCache
  import opened LibGenMetadata

  datatype DiscoveredRecord = DiscoveredRecord(
    origin: string,
    displayTitle: string,
    rawTitle: string,
    expected: Expectation)

  function Md5(record: DiscoveredRecord): string {
    record.expected.md5
  }

  /** A candidate is built from the row and the metadata found for it and nothing else. */
  datatype Candidate = Candidate(discovered: DiscoveredRecord, file: FileMetadata, edition: Option<EditionMetadata>)

  datatype Metadata = FileValue(file: FileMetadata) | EditionValue(edition: EditionMetadata)

  datatype EnrichError = ConflictingOrigins | InvalidBatch

  const MAX_BATCH := 100

  // ----- Cache keys -----

  /** str(x or ""): zero and absence print alike. */
  function OrBlank(value: Option<nat>): string {
    if value.None? || value.value == 0 then "" else Print(value.value)
  }

  function FileCacheKey(origin: string, expected: Expectation): string {
    "file:" + origin + ":" + expected.md5 + ":" + OrBlank(expected.fileId) + ":" + OrBlank(expected.editionId)
    + ":" + OrBlank(expected.sizeBytes) + ":" + OrBlank(expected.sizeTolerance)
    + ":" + (if expected.extension.Some? then expected.extension.value else "")
  }

  function EditionCacheKey(origin: string, editionId: nat, fileId: nat): string {
    "edition:" + origin + ":" + Print(editionId) + ":" + Print(fileId)
  }

  /** What the search parser guarantees of the rows it emits. */
  predicate ParsedRow(expected: Expectation) {
    && IsMd5(expected.md5)
    && expected.fileId != Some(0)
    && expected.editionId != Some(0)
    && (expected.extension.Some? ==> expected.extension.value != "" && ':' !in expected.extension.value)
  }

  /** The rows one cache is used for, by origin. */
  type Family = (string, Expectation) -> bool

  /** No key of the family has two sizes: a row that shows a size of zero and one that
      shows none are told apart by their tolerance, their extension or their ids. */
  ghost predicate Unambiguous(family: Family) {
    && (forall origin: string, e: Expectation :: family(origin, e) ==> ParsedRow(e))
    && (forall origin: string, e1: Expectation, e2: Expectation :: family(origin, e1) && family(origin, e2) ==>
          FileCacheKey(origin, e1) == FileCacheKey(origin, e2) ==> e1.sizeBytes == e2.sizeBytes)
  }

  /** A parsed row whose size and tolerance come together and are not both zero. */
  predicate SoundRow(origin: string, expected: Expectation) {
    && ParsedRow(expected)
    && (expected.sizeBytes.None? ==> expected.sizeTolerance.None?)
    && (expected.sizeBytes == Some(0) ==> expected.sizeTolerance.Some? && expected.sizeTolerance.value > 0)
  }

  // ----- The answers of a fixed source, without any cache -----

  /** What asking for one thing alone gives, and what its record says however long the
      reply is. */
  datatype Verdict<T> = Verdict(alone: Option<T>, record: Option<T>)

  function FileVerdict(source: Source, expected: Expectation): Verdict<FileMetadata> {
    var reply := Md5Reply(source, expected.md5);
    Verdict(ParseFile(reply, expected), FindFile(reply.records, expected))
  }

  function EditionVerdict(source: Source, editionId: nat, fileId: nat): Verdict<EditionMetadata> {
    var reply := EditionsReply(source, {editionId});
    Verdict(ParseEdition(reply, editionId, fileId), FindEdition(reply.records, editionId, fileId))
  }

  /** The edition asked for along with a file. */
  function EditionOf(source: Source, file: FileMetadata): Option<EditionMetadata> {
    if file.editionId.Some? then EditionVerdict(source, file.editionId.value, file.fileId).alone else None
  }

  /** Enriching one row by fetching and parsing now. */
  function Enriched(source: Source, discovered: DiscoveredRecord): Option<Candidate> {
    var file := FileVerdict(source, discovered.expected).alone;
    if file.None? then None else Some(Candidate(discovered, file.value, EditionOf(source, file.value)))
  }

  /** The rows that enrich, in order. */
  function EnrichedAll(source: Source, rows: seq<DiscoveredRecord>): seq<Candidate> {
    if rows == [] then []
    else
      var last := Enriched(source, rows[|rows| - 1]);
      EnrichedAll(source, rows[..|rows| - 1]) + if last.Some? then [last.value] else []
  }

  /** An answer is right when it is the one for the thing alone. Where replies outgrow
      their bound answers may get lost, but none is ever another's. */
  predicate Right<T(==)>(found: Option<T>, verdict: Verdict<T>, exact: bool) {
    if exact then found == verdict.alone else found.None? || found == verdict.record
  }

  /** A candidate with its row's own answers; or, where answers may get lost, without its
      edition, or no candidate. */
  predicate RightCandidate(source: Source, row: DiscoveredRecord, found: Option<Candidate>, exact: bool) {
    if exact then found == Enriched(source, row)
    else
      found.Some? ==>
        && found.value.discovered == row
        && FileVerdict(source, row.expected).record == Some(found.value.file)
        && (found.value.edition.Some? ==>
              && found.value.file.editionId.Some?
              && EditionVerdict(source, found.value.file.editionId.value, found.value.file.fileId).record
                 == found.value.edition)
  }

  /** The file a cached value holds. */
  function FileIn(value: Option<Metadata>): Option<FileMetadata> {
    if value.Some? && value.value.FileValue? then Some(value.value.file) else None
  }

  function EditionIn(value: Option<Metadata>): Option<EditionMetadata> {
    if value.Some? && value.value.EditionValue? then Some(value.value.edition) else None
  }

  function WrapFile(file: Option<FileMetadata>): Option<Metadata> {
    if file.Some? then Some(FileValue(file.value)) else None
  }

  function WrapEdition(edition: Option<EditionMetadata>): Option<Metadata> {
    if edition.Some? then Some(EditionValue(edition.value)) else None
  }

  type Sources = string -> Source

  /** Every entry of the family, live or expired, is right. */
  ghost predicate Coherent(entries: Entries<string, Metadata>, sources: Sources, family: Family, exact: bool) {
    && (forall origin: string, expected: Expectation {:trigger FileCacheKey(origin, expected)} ::
          family(origin, expected) && FileCacheKey(origin, expected) in entries.table ==>
            Right(FileIn(entries.table[FileCacheKey(origin, expected)].value), FileVerdict(sources(origin), expected),
                  exact))
    && (forall origin: string, editionId: nat, fileId: nat {:trigger EditionCacheKey(origin, editionId, fileId)} ::
          EditionCacheKey(origin, editionId, fileId) in entries.table ==>
            Right(EditionIn(entries.table[EditionCacheKey(origin, editionId, fileId)].value),
                  EditionVerdict(sources(origin), editionId, fileId), exact))
  }

  // ----- Cache keys determine the answers they stand for -----

  /** A text ending in a colon-free field has one last field. */
  lemma LastFieldUnique(a: string, x: string, b: string, y: string)
    requires ':' !in x && ':' !in y && a + ":" + x == b + ":" + y
    ensures a == b && x == y
  {
    var m, n := a + ":" + x, b + ":" + y;
    assert m[|a|] == ':' && n[|b|] == ':';
    assert forall i :: |a| < i < |m| ==> m[i] == x[i - |a| - 1] && m[i] in x;
    assert forall i :: |b| < i < |n| ==> n[i] == y[i - |b| - 1] && n[i] in y;
    assert |a| == |b|;
    assert a == m[..|a|] && b == n[..|b|];
    assert x == m[|a| + 1..] && y == n[|b| + 1..];
  }

  lemma NumeralHasNoColon(n: nat)
    ensures ':' !in Print(n) && Print(n) != ""
  {
    ParsePrint(n);
  }

  lemma OrBlankUnique(m: Option<nat>, n: Option<nat>)
    ensures ':' !in OrBlank(m)
    ensures OrBlank(m) == OrBlank(n) && m != Some(0) && n != Some(0) ==> m == n
  {
    if m.Some? {
      ParsePrint(m.value);
    }
    if n.Some? {
      ParsePrint(n.value);
    }
  }

  predicate SameUpToZero(m: Option<nat>, n: Option<nat>) {
    (if m.Some? then m.value else 0) == (if n.Some? then n.value else 0)
  }

  lemma OrBlankMergesZero(m: Option<nat>, n: Option<nat>)
    ensures OrBlank(m) == OrBlank(n) <==> SameUpToZero(m, n)
  {
    if m.Some? {
      ParsePrint(m.value);
    }
    if n.Some? {
      ParsePrint(n.value);
    }
  }

  predicate ColonFree(expected: Expectation) {
    && ':' !in expected.md5
    && (expected.extension.Some? ==> expected.extension.value != "" && ':' !in expected.extension.value)
  }

  /** What a file key tells apart: everything but zero from absence. */
  lemma FileKeyFields(o1: string, e1: Expectation, o2: string, e2: Expectation)
    requires ColonFree(e1) && ColonFree(e2)
    requires FileCacheKey(o1, e1) == FileCacheKey(o2, e2)
    ensures o1 == o2 && e1.md5 == e2.md5 && e1.extension == e2.extension
    ensures SameUpToZero(e1.fileId, e2.fileId) && SameUpToZero(e1.editionId, e2.editionId)
    ensures SameUpToZero(e1.sizeBytes, e2.sizeBytes) && SameUpToZero(e1.sizeTolerance, e2.sizeTolerance)
  {
    var a0, b0 := "file:" + o1, "file:" + o2;
    var a1, b1 := a0 + ":" + e1.md5, b0 + ":" + e2.md5;
    var a2, b2 := a1 + ":" + OrBlank(e1.fileId), b1 + ":" + OrBlank(e2.fileId);
    var a3, b3 := a2 + ":" + OrBlank(e1.editionId), b2 + ":" + OrBlank(e2.editionId);
    var a4, b4 := a3 + ":" + OrBlank(e1.sizeBytes), b3 + ":" + OrBlank(e2.sizeBytes);
    var a5, b5 := a4 + ":" + OrBlank(e1.sizeTolerance), b4 + ":" + OrBlank(e2.sizeTolerance);
    var x1 := if e1.extension.Some? then e1.extension.value else "";
    var x2 := if e2.extension.Some? then e2.extension.value else "";
    OrBlankUnique(e1.fileId, e2.fileId);
    OrBlankUnique(e2.fileId, e1.fileId);
    OrBlankUnique(e1.editionId, e2.editionId);
    OrBlankUnique(e2.editionId, e1.editionId);
    OrBlankUnique(e1.sizeBytes, e2.sizeBytes);
    OrBlankUnique(e2.sizeBytes, e1.sizeBytes);
    OrBlankUnique(e1.sizeTolerance, e2.sizeTolerance);
    OrBlankUnique(e2.sizeTolerance, e1.sizeTolerance);
    LastFieldUnique(a5, x1, b5, x2);
    LastFieldUnique(a4, OrBlank(e1.sizeTolerance), b4, OrBlank(e2.sizeTolerance));
    LastFieldUnique(a3, OrBlank(e1.sizeBytes), b3, OrBlank(e2.sizeBytes));
    LastFieldUnique(a2, OrBlank(e1.editionId), b2, OrBlank(e2.editionId));
    LastFieldUnique(a1, OrBlank(e1.fileId), b1, OrBlank(e2.fileId));
    LastFieldUnique(a0, e1.md5, b0, e2.md5);
    assert o1 == a0[|"file:"|..] && o2 == b0[|"file:"|..];
    OrBlankMergesZero(e1.fileId, e2.fileId);
    OrBlankMergesZero(e1.editionId, e2.editionId);
    OrBlankMergesZero(e1.sizeBytes, e2.sizeBytes);
    OrBlankMergesZero(e1.sizeTolerance, e2.sizeTolerance);
  }

  lemma EditionKeyFields(o1: string, e1: nat, f1: nat, o2: string, e2: nat, f2: nat)
    requires EditionCacheKey(o1, e1, f1) == EditionCacheKey(o2, e2, f2)
    ensures o1 == o2 && e1 == e2 && f1 == f2
  {
    NumeralHasNoColon(e1);
    NumeralHasNoColon(e2);
    NumeralHasNoColon(f1);
    NumeralHasNoColon(f2);
    var a, b := "edition:" + o1, "edition:" + o2;
    LastFieldUnique(a + ":" + Print(e1), Print(f1), b + ":" + Print(e2), Print(f2));
    LastFieldUnique(a, Print(e1), b, Print(e2));
    PrintInjective(e1, e2);
    PrintInjective(f1, f2);
    assert o1 == a[|"edition:"|..] && o2 == b[|"edition:"|..];
  }

  lemma FileAndEditionKeysDiffer(o1: string, e1: Expectation, o2: string, editionId: nat, fileId: nat)
    ensures FileCacheKey(o1, e1) != EditionCacheKey(o2, editionId, fileId)
  {
    assert FileCacheKey(o1, e1)[0] == 'f';
    assert EditionCacheKey(o2, editionId, fileId)[0] == 'e';
  }

  /** Rows of an unambiguous family with one key get one verdict from every source. */
  lemma FileKeyDeterminesAnswer(family: Family, o1: string, e1: Expectation, o2: string, e2: Expectation,
                                source: Source)
    requires Unambiguous(family) && family(o1, e1) && family(o2, e2)
    requires FileCacheKey(o1, e1) == FileCacheKey(o2, e2)
    ensures o1 == o2 && FileVerdict(source, e1) == FileVerdict(source, e2)
  {
    FileKeyFields(o1, e1, o2, e2);
    assert e2 == e1.(sizeTolerance := e2.sizeTolerance);
    ToleranceZeroIsNone(source, e1, e2.sizeTolerance);
  }

  /** The sound rows are such a family: a size of zero with some tolerance never shares a
      key with an absent one. */
  lemma SoundRowsAreUnambiguous()
    ensures Unambiguous(SoundRow)
  {
    forall origin: string, e1: Expectation, e2: Expectation |
      SoundRow(origin, e1) && SoundRow(origin, e2) && FileCacheKey(origin, e1) == FileCacheKey(origin, e2)
      ensures e1.sizeBytes == e2.sizeBytes
    {
      FileKeyFields(origin, e1, origin, e2);
    }
  }

  lemma ToleranceZeroIsNone(source: Source, expected: Expectation, tolerance: Option<nat>)
    requires SameUpToZero(expected.sizeTolerance, tolerance)
    ensures FileVerdict(source, expected) == FileVerdict(source, expected.(sizeTolerance := tolerance))
  {
  }

  /** A file too large for a row that shows a size of zero. */
  function OversizedFile(expected: Expectation): RawFile {
    var tolerance := if expected.sizeTolerance.Some? then expected.sizeTolerance.value else 0;
    RawFile(expected.md5, Blank, Blank, Given(tolerance + 1), Blank, NoRelations, Blank, Blank, Blank)
  }

  function OversizedId(expected: Expectation): nat {
    if expected.fileId.Some? then expected.fileId.value else 1
  }

  /** A source on which a row without a size is accepted and one of size zero is not. */
  function OversizedSource(expected: Expectation): Source {
    Source(map[Print(OversizedId(expected)) := Record(OversizedFile(expected))], map[], _ => 0, _ => 0)
  }

  lemma OversizedAnswer(expected: Expectation, size: Option<nat>)
    ensures var row := expected.(sizeBytes := size);
      FileVerdict(OversizedSource(expected), row).alone
      == CheckFile(Print(OversizedId(expected)), OversizedFile(expected), row)
  {
    hide CheckFile, Print;
    var key := Print(OversizedId(expected));
    var found := ByMd5(OversizedSource(expected).files, expected.md5);
    assert key in found;
    assert Carriers(found, expected.md5) == {key};
  }

  lemma OversizedSourceTellsApart(expected: Expectation)
    requires ParsedRow(expected)
    ensures FileVerdict(OversizedSource(expected), expected.(sizeBytes := None)).alone.Some?
    ensures FileVerdict(OversizedSource(expected), expected.(sizeBytes := Some(0))).alone.None?
  {
    hide FileVerdict, OversizedSource, Print;
    ParsePrint(OversizedId(expected));
    OversizedAnswer(expected, None);
    OversizedAnswer(expected, Some(0));
  }

  /** The file key is a faithful name for the answer exactly when it does not merge an
      absent size with a size of zero. */
  lemma FileKeyIsFaithfulExactly(origin: string, e1: Expectation, e2: Expectation)
    requires ParsedRow(e1) && ParsedRow(e2) && FileCacheKey(origin, e1) == FileCacheKey(origin, e2)
    ensures (forall source: Source :: FileVerdict(source, e1).alone == FileVerdict(source, e2).alone) <==>
      e1.sizeBytes == e2.sizeBytes
  {
    FileKeyFields(origin, e1, origin, e2);
    if e1.sizeBytes == e2.sizeBytes {
      assert e2 == e1.(sizeTolerance := e2.sizeTolerance);
      forall source: Source
        ensures FileVerdict(source, e1) == FileVerdict(source, e2)
      {
        ToleranceZeroIsNone(source, e1, e2.sizeTolerance);
      }
    } else {
      var source := OversizedSource(e1);
      OversizedSourceTellsApart(e1);
      ToleranceZeroIsNone(source, e2, e1.sizeTolerance);
      assert e2.(sizeTolerance := e1.sizeTolerance) == e1.(sizeBytes := e2.sizeBytes);
      assert FileVerdict(source, e1).alone != FileVerdict(source, e2).alone;
    }
  }

  /** The merge is real: a row that shows no size and one whose size and tolerance are
      both zero share a key, and a source exists whose answers to them differ. */
  lemma ZeroSizeSharesAKey(origin: string, md5: string)
    requires IsMd5(md5)
    ensures var absent := Expectation(md5, Some(1), None, None, None, None);
      var zero := Expectation(md5, Some(1), None, Some(0), Some(0), None);
      && FileCacheKey(origin, absent) == FileCacheKey(origin, zero)
      && FileVerdict(OversizedSource(absent), absent).alone != FileVerdict(OversizedSource(absent), zero).alone
  {
    var absent := Expectation(md5, Some(1), None, None, None, None);
    OversizedSourceTellsApart(absent);
    ToleranceZeroIsNone(OversizedSource(absent), absent.(sizeBytes := Some(0)), Some(0));
  }

  // ----- Coherence through cache steps -----

  lemma GetKeepsCoherence(entries: Entries<string, Metadata>, sources: Sources, family: Family, exact: bool,
                          key: string, now: real)
    requires Coherent(entries, sources, family, exact)
    ensures Coherent(GetEntry(entries, key, now).0, sources, family, exact)
  {
    GetTable(entries, key, now);
  }

  lemma SetFileKeepsCoherence(settings: Settings, entries: Entries<string, Metadata>, sources: Sources,
                              family: Family, exact: bool, origin: string, expected: Expectation,
                              file: Option<FileMetadata>, now: real)
    requires ValidSettings(settings) && OrderedDicts.Valid(entries) && Coherent(entries, sources, family, exact)
    requires Unambiguous(family) && family(origin, expected)
    requires Right(file, FileVerdict(sources(origin), expected), exact)
    ensures Coherent(SetEntry(settings, entries, FileCacheKey(origin, expected), WrapFile(file), now), sources, family,
                     exact)
  {
    hide FileVerdict, EditionVerdict;
    var key := FileCacheKey(origin, expected);
    SetTable(settings, entries, key, WrapFile(file), now);
    var after := SetEntry(settings, entries, key, WrapFile(file), now);
    forall o: string, e: Expectation | family(o, e) && FileCacheKey(o, e) in after.table
      ensures Right(FileIn(after.table[FileCacheKey(o, e)].value), FileVerdict(sources(o), e), exact)
    {
      if FileCacheKey(o, e) == key {
        FileKeyDeterminesAnswer(family, o, e, origin, expected, sources(origin));
      }
    }
    forall o: string, editionId: nat, fileId: nat | EditionCacheKey(o, editionId, fileId) in after.table
      ensures Right(EditionIn(after.table[EditionCacheKey(o, editionId, fileId)].value),
                    EditionVerdict(sources(o), editionId, fileId), exact)
    {
      FileAndEditionKeysDiffer(origin, expected, o, editionId, fileId);
    }
  }

  /** An ambiguous family breaks coherence: when one key has two sizes, there is a source
      for which storing the right answer to one row leaves a wrong answer to the other. */
  lemma AmbiguityBreaksCoherence(settings: Settings, entries: Entries<string, Metadata>, family: Family, origin: string,
                                 e1: Expectation, e2: Expectation, now: real)
    requires ValidSettings(settings) && OrderedDicts.Valid(entries)
    requires family(origin, e1) && family(origin, e2) && ParsedRow(e1) && ParsedRow(e2)
    requires FileCacheKey(origin, e1) == FileCacheKey(origin, e2) && e1.sizeBytes != e2.sizeBytes
    ensures exists source: Source ::
      !Coherent(SetEntry(settings, entries, FileCacheKey(origin, e1), WrapFile(FileVerdict(source, e1).alone), now),
                _ => source, family, true)
  {
    hide FileVerdict, SetEntry;
    FileKeyIsFaithfulExactly(origin, e1, e2);
    var source: Source :| FileVerdict(source, e1).alone != FileVerdict(source, e2).alone;
    var key, value := FileCacheKey(origin, e1), WrapFile(FileVerdict(source, e1).alone);
    SetTable(settings, entries, key, value, now);
    assert FileCacheKey(origin, e2) == key;
    assert !Coherent(SetEntry(settings, entries, key, value, now), _ => source, family, true);
  }

  lemma SetEditionKeepsCoherence(settings: Settings, entries: Entries<string, Metadata>, sources: Sources,
                                 family: Family, exact: bool, origin: string, editionId: nat, fileId: nat,
                                 edition: Option<EditionMetadata>, now: real)
    requires ValidSettings(settings) && OrderedDicts.Valid(entries) && Coherent(entries, sources, family, exact)
    requires Right(edition, EditionVerdict(sources(origin), editionId, fileId), exact)
    ensures Coherent(SetEntry(settings, entries, EditionCacheKey(origin, editionId, fileId), WrapEdition(edition), now),
                     sources, family, exact)
  {
    hide FileVerdict, EditionVerdict;
    var key := EditionCacheKey(origin, editionId, fileId);
    SetTable(settings, entries, key, WrapEdition(edition), now);
    var after := SetEntry(settings, entries, key, WrapEdition(edition), now);
    forall o: string, e: Expectation | family(o, e) && FileCacheKey(o, e) in after.table
      ensures Right(FileIn(after.table[FileCacheKey(o, e)].value), FileVerdict(sources(o), e), exact)
    {
      FileAndEditionKeysDiffer(o, e, origin, editionId, fileId);
    }
    forall o: string, e: nat, f: nat | EditionCacheKey(o, e, f) in after.table
      ensures Right(EditionIn(after.table[EditionCacheKey(o, e, f)].value), EditionVerdict(sources(o), e, f), exact)
    {
      if EditionCacheKey(o, e, f) == key {
        EditionKeyFields(o, e, f, origin, editionId, fileId);
      }
    }
  }

  // ----- Facts about a batch of rows -----

  ghost predicate DistinctMd5s(rows: seq<DiscoveredRecord>) {
    forall i, j :: 0 <= i < j < |rows| ==> rows[i].expected.md5 != rows[j].expected.md5
  }

  ghost predicate ParsedRows(rows: seq<DiscoveredRecord>) {
    forall row :: row in rows ==> ParsedRow(row.expected)
  }

  predicate OneOrigin(rows: seq<DiscoveredRecord>) {
    forall row :: row in rows ==> row.origin == rows[0].origin
  }

  /** Whether a row gets from a reply to several ids what it gets alone. */
  predicate FileBatchAgrees(source: Source, ids: set<nat>, expected: Expectation) {
    FileVerdict(source, expected).record.None?
    || (Fits(FilesReply(source, ids)) <==> Fits(Md5Reply(source, expected.md5)))
  }

  predicate EditionBatchAgrees(source: Source, ids: set<nat>, editionId: nat, fileId: nat) {
    EditionVerdict(source, editionId, fileId).record.None?
    || (Fits(EditionsReply(source, ids)) <==> Fits(EditionsReply(source, {editionId})))
  }

  ghost predicate IsFileOf(source: Source, rows: seq<DiscoveredRecord>, file: FileMetadata) {
    exists row :: row in rows && FileVerdict(source, row.expected).record == Some(file)
  }

  ghost predicate AreFileIds(rows: seq<DiscoveredRecord>, ids: set<nat>) {
    forall id :: id in ids ==> exists row :: row in rows && row.expected.fileId == Some(id)
  }

  ghost predicate AreEditionIds(source: Source, rows: seq<DiscoveredRecord>, ids: set<nat>) {
    forall id :: id in ids ==> exists file :: IsFileOf(source, rows, file) && file.editionId == Some(id)
  }

  /** Whether every batch of these rows, whichever of them are cached, gives each row what
      it gets alone; so it is when all replies fit. */
  ghost predicate BatchesAgree(source: Source, rows: seq<DiscoveredRecord>) {
    && (forall ids: set<nat>, row | AreFileIds(rows, ids) && row in rows && row.expected.fileId.Some? ::
          row.expected.fileId.value in ids ==> FileBatchAgrees(source, ids, row.expected))
    && (forall ids: set<nat>, file | AreEditionIds(source, rows, ids) && IsFileOf(source, rows, file) ::
          file.editionId.Some? && file.editionId.value in ids ==>
            EditionBatchAgrees(source, ids, file.editionId.value, file.fileId))
  }

  function PlainFile(md5: string): RawFile {
    RawFile(md5, Blank, Blank, Blank, Blank, NoRelations, Blank, Blank, Blank)
  }

  function PlainRow(md5: string, id: nat): Expectation {
    Expectation(md5, Some(id), None, None, None, None)
  }

  lemma PlainFileIsAccepted(source: Source, id: nat, md5: string)
    requires id > 0 && IsMd5(md5) && Fits(Md5Reply(source, md5))
    requires Print(id) in source.files && source.files[Print(id)] == Record(PlainFile(md5))
    ensures FileVerdict(source, PlainRow(md5, id)).alone.Some?
  {
    ParsePrint(id);
    assert Print(id) in ByMd5(source.files, md5);
  }

  // Two records of 300 KiB each: one fits into a reply and two do not.
  function HeavySource(a: string, b: string): Source {
    Source(map[Print(1) := Record(PlainFile(a)), Print(2) := Record(PlainFile(b))], map[],
           records => 300 * 1024 * |records|, _ => 0)
  }

  lemma OneHeavyRecordFits(a: string, b: string)
    requires a != b
    ensures Fits(Md5Reply(HeavySource(a, b), a)) && Fits(Md5Reply(HeavySource(a, b), b))
  {
    hide Print;
    var files := HeavySource(a, b).files;
    ParsePrint(1);
    ParsePrint(2);
    assert ByMd5(files, a) == map[Print(1) := Record(PlainFile(a))];
    assert ByMd5(files, b) == map[Print(2) := Record(PlainFile(b))];
  }

  lemma TwoHeavyRecordsDoNot(a: string, b: string)
    ensures !Fits(FilesReply(HeavySource(a, b), {1, 2}))
  {
    hide Print;
    var files := HeavySource(a, b).files;
    ParsePrint(1);
    ParsePrint(2);
    assert ByIds(files, {1, 2}) == files;
    assert files.Keys == {Print(1), Print(2)};
  }

  /** Rows that are accepted one by one are both rejected when their batched reply is too
      long. */
  lemma OverweightBatchLosesRows(a: string, b: string)
    requires IsMd5(a) && IsMd5(b) && a != b
    ensures var source, reply := HeavySource(a, b), FilesReply(HeavySource(a, b), {1, 2});
      && FileVerdict(source, PlainRow(a, 1)).alone.Some? && FileVerdict(source, PlainRow(b, 2)).alone.Some?
      && ParseFile(reply, PlainRow(a, 1)).None? && ParseFile(reply, PlainRow(b, 2)).None?
  {
    hide FileVerdict, FindFile, IsMd5, Print, Fits, Md5Reply, FilesReply;
    var source := HeavySource(a, b);
    ParsePrint(1);
    ParsePrint(2);
    OneHeavyRecordFits(a, b);
    PlainFileIsAccepted(source, 1, a);
    PlainFileIsAccepted(source, 2, b);
    TwoHeavyRecordsDoNot(a, b);
  }

  lemma RecordFacts(source: Source, expected: Expectation)
    requires ParsedRow(expected) && FileVerdict(source, expected).record.Some?
    ensures var file := FileVerdict(source, expected).record.value;
      && file.editionId != Some(0)
      && Print(file.fileId) in source.files && source.files[Print(file.fileId)].Record?
      && source.files[Print(file.fileId)].record.md5 == expected.md5
  {
    AcceptedFileAgreesWithRow(ByMd5(source.files, expected.md5), expected);
  }

  /** Two rows that found the same file are the same row. */
  lemma FileIdDeterminesRow(source: Source, rows: seq<DiscoveredRecord>, a: DiscoveredRecord, b: DiscoveredRecord)
    requires DistinctMd5s(rows) && ParsedRows(rows) && a in rows && b in rows
    requires FileVerdict(source, a.expected).record.Some? && FileVerdict(source, b.expected).record.Some?
    requires FileVerdict(source, a.expected).record.value.fileId == FileVerdict(source, b.expected).record.value.fileId
    ensures a == b
  {
    RecordFacts(source, a.expected);
    RecordFacts(source, b.expected);
  }

  /** A right answer that is one is what the record says. */
  lemma FoundIsRecord(source: Source, expected: Expectation, found: Option<FileMetadata>, exact: bool)
    requires Right(found, FileVerdict(source, expected), exact) && found.Some?
    ensures FileVerdict(source, expected).record == found
  {
  }

  function Unique(ids: seq<nat>): set<nat> {
    set i | i in ids
  }

  lemma {:induction false} UniqueIsNoLarger(ids: seq<nat>)
    ensures |Unique(ids)| <= |ids|
  {
    if ids == [] {
      assert Unique(ids) == {};
    } else {
      UniqueIsNoLarger(ids[1..]);
      assert Unique(ids) == Unique(ids[1..]) + {ids[0]};
    }
  }

  /** The distinct ids of a batch; None when there are none, too many, or a zero. */
  function BoundedIdentifiers(ids: seq<nat>): Option<set<nat>> {
    var unique := Unique(ids);
    if unique == {} || |unique| > MAX_BATCH || 0 in unique then None else Some(unique)
  }

  type FileTable = OrderedDict<string, Option<FileMetadata>>
  type EditionTable = map<nat, Option<EditionMetadata>>

  /** The file verdict of each row, by MD5. */
  ghost function FileVerdicts(source: Source, rows: seq<DiscoveredRecord>): map<string, Verdict<FileMetadata>> {
    if rows == [] then map[]
    else
      var row := rows[|rows| - 1];
      FileVerdicts(source, rows[..|rows| - 1])[row.expected.md5 := FileVerdict(source, row.expected)]
  }

  /** The edition verdict of each row's file that names an edition, by file id. */
  ghost function EditionVerdicts(source: Source, rows: seq<DiscoveredRecord>): map<nat, Verdict<EditionMetadata>> {
    if rows == [] then map[]
    else
      var before := EditionVerdicts(source, rows[..|rows| - 1]);
      var file := FileVerdict(source, rows[|rows| - 1].expected).record;
      if file.Some? && file.value.editionId.Some? then
        before[file.value.fileId := EditionVerdict(source, file.value.editionId.value, file.value.fileId)]
      else
        before
  }

  /** Answers so far, all of them right. */
  ghost predicate PartOf<K, V>(part: map<K, Option<V>>, verdicts: map<K, Verdict<V>>, exact: bool) {
    forall k :: k in part ==> k in verdicts && Right(part[k], verdicts[k], exact)
  }

  lemma {:induction false} FileVerdictsAt(source: Source, rows: seq<DiscoveredRecord>, row: DiscoveredRecord)
    requires DistinctMd5s(rows) && row in rows
    ensures row.expected.md5 in FileVerdicts(source, rows)
    ensures FileVerdicts(source, rows)[row.expected.md5] == FileVerdict(source, row.expected)
  {
    var before, last := rows[..|rows| - 1], rows[|rows| - 1];
    if row != last {
      assert row in before;
      FileVerdictsAt(source, before, row);
    }
  }

  lemma AssignAnswer(source: Source, rows: seq<DiscoveredRecord>, row: DiscoveredRecord, files: FileTable,
                     file: Option<FileMetadata>, exact: bool)
    requires DistinctMd5s(rows) && row in rows && Right(file, FileVerdict(source, row.expected), exact)
    requires OrderedDicts.Valid(files) && PartOf(files.table, FileVerdicts(source, rows), exact)
    ensures var after := Assign(files, row.expected.md5, file);
      && OrderedDicts.Valid(after) && PartOf(after.table, FileVerdicts(source, rows), exact)
      && after.table.Keys == files.table.Keys + {row.expected.md5}
      && |after.order| <= |files.order| + 1
  {
    hide FileVerdict;
    FileVerdictsAt(source, rows, row);
    AssignValid(files, row.expected.md5, file);
  }

  lemma {:induction false} FileVerdictsFrom(source: Source, rows: seq<DiscoveredRecord>, md5: string)
    returns (row: DiscoveredRecord)
    requires md5 in FileVerdicts(source, rows)
    ensures row in rows && row.expected.md5 == md5
    ensures FileVerdicts(source, rows)[md5] == FileVerdict(source, row.expected)
  {
    row := rows[|rows| - 1];
    if row.expected.md5 != md5 {
      row := FileVerdictsFrom(source, rows[..|rows| - 1], md5);
    }
  }

  lemma {:induction false} EditionVerdictsAt(source: Source, rows: seq<DiscoveredRecord>, row: DiscoveredRecord,
                                             file: FileMetadata)
    requires DistinctMd5s(rows) && ParsedRows(rows) && row in rows
    requires FileVerdict(source, row.expected).record == Some(file) && file.editionId.Some?
    ensures file.fileId in EditionVerdicts(source, rows)
    ensures EditionVerdicts(source, rows)[file.fileId] == EditionVerdict(source, file.editionId.value, file.fileId)
  {
    hide FileVerdict, EditionVerdict;
    var before, last := rows[..|rows| - 1], rows[|rows| - 1];
    if row != last {
      assert row in before;
      EditionVerdictsAt(source, before, row, file);
      var other := FileVerdict(source, last.expected).record;
      if other.Some? && other.value.fileId == file.fileId {
        FileIdDeterminesRow(source, rows, row, last);
      }
    }
  }

  /** A file found for a row that names an edition to look up. */
  ghost predicate NamesEdition(source: Source, rows: seq<DiscoveredRecord>, file: FileMetadata) {
    && IsFileOf(source, rows, file)
    && file.editionId.Some? && file.editionId.value != 0
    && file.fileId in EditionVerdicts(source, rows)
    && EditionVerdicts(source, rows)[file.fileId] == EditionVerdict(source, file.editionId.value, file.fileId)
  }

  lemma FoundNamesEdition(source: Source, rows: seq<DiscoveredRecord>, md5: string, file: FileMetadata, exact: bool)
    requires DistinctMd5s(rows) && ParsedRows(rows)
    requires md5 in FileVerdicts(source, rows) && Right(Some(file), FileVerdicts(source, rows)[md5], exact)
    requires file.editionId.Some?
    ensures NamesEdition(source, rows, file)
  {
    var row := FileVerdictsFrom(source, rows, md5);
    FoundIsRecord(source, row.expected, Some(file), exact);
    EditionVerdictsAt(source, rows, row, file);
    RecordFacts(source, row.expected);
  }

  predicate EditionCovered(found: Option<FileMetadata>, editions: EditionTable, pending: seq<FileMetadata>) {
    found.Some? && found.value.editionId.Some? ==> found.value.fileId in editions || found.value in pending
  }

  ghost predicate EditionsCover(files: FileTable, editions: EditionTable, pending: seq<FileMetadata>) {
    forall md5 :: md5 in files.table ==> EditionCovered(files.table[md5], editions, pending)
  }

  /** A row's candidate, put together from the tables. */
  function FromTables(row: DiscoveredRecord, found: Option<FileMetadata>, editions: EditionTable): Option<Candidate> {
    if found.None? then None
    else
      var file := found.value;
      var edition := if file.editionId.Some? && file.fileId in editions then editions[file.fileId] else None;
      Some(Candidate(row, file, edition))
  }

  lemma RightFromTables(source: Source, rows: seq<DiscoveredRecord>, row: DiscoveredRecord,
                        files: map<string, Option<FileMetadata>>, editions: EditionTable, exact: bool)
    requires DistinctMd5s(rows) && ParsedRows(rows) && row in rows && row.expected.md5 in files
    requires PartOf(files, FileVerdicts(source, rows), exact) && PartOf(editions, EditionVerdicts(source, rows), exact)
    requires EditionCovered(files[row.expected.md5], editions, [])
    ensures RightCandidate(source, row, FromTables(row, files[row.expected.md5], editions), exact)
  {
    hide FileVerdict, EditionVerdict;
    var found := files[row.expected.md5];
    FileVerdictsAt(source, rows, row);
    if found.Some? {
      FoundIsRecord(source, row.expected, found, exact);
      if found.value.editionId.Some? {
        EditionVerdictsAt(source, rows, row, found.value);
      }
    }
  }

  function CandidateOf(candidates: map<string, Candidate>, row: DiscoveredRecord): Option<Candidate> {
    if row.expected.md5 in candidates then Some(candidates[row.expected.md5]) else None
  }

  /** Every candidate so far is right for its row. */
  ghost predicate RightSoFar(source: Source, rows: seq<DiscoveredRecord>, candidates: map<string, Candidate>,
                             exact: bool) {
    forall row :: row in rows && row.expected.md5 in candidates ==>
      RightCandidate(source, row, Some(candidates[row.expected.md5]), exact)
  }

  function Select(rows: seq<DiscoveredRecord>, candidates: map<string, Candidate>): seq<Candidate> {
    if rows == [] then []
    else
      var last := CandidateOf(candidates, rows[|rows| - 1]);
      Select(rows[..|rows| - 1], candidates) + if last.Some? then [last.value] else []
  }

  /** The candidates stand for some of the rows, in the order of the rows. */
  predicate InOrder(found: seq<Candidate>, rows: seq<DiscoveredRecord>)
    decreases |rows|
  {
    found == []
    || (rows != []
        && (InOrder(found, rows[..|rows| - 1])
            || (found[|found| - 1].discovered == rows[|rows| - 1]
                && InOrder(found[..|found| - 1], rows[..|rows| - 1]))))
  }

  /** A candidate of its own for some of the rows, in their order, and none that is wrong. */
  ghost predicate RightCandidates(source: Source, rows: seq<DiscoveredRecord>, found: seq<Candidate>, exact: bool) {
    && InOrder(found, rows)
    && forall c :: c in found ==> RightCandidate(source, c.discovered, Some(c), exact)
  }

  lemma {:induction false} SelectIsRight(source: Source, rows: seq<DiscoveredRecord>,
                                         candidates: map<string, Candidate>, exact: bool)
    requires forall row :: row in rows ==> RightCandidate(source, row, CandidateOf(candidates, row), exact)
    ensures RightCandidates(source, rows, Select(rows, candidates), exact)
    ensures exact ==> Select(rows, candidates) == EnrichedAll(source, rows)
  {
    hide FileVerdict, EditionVerdict;
    if rows != [] {
      var front, last := rows[..|rows| - 1], rows[|rows| - 1];
      SelectIsRight(source, front, candidates, exact);
      assert RightCandidate(source, last, CandidateOf(candidates, last), exact);
      var found := Select(front, candidates);
      if CandidateOf(candidates, last).Some? {
        var all := found + [CandidateOf(candidates, last).value];
        assert all[..|all| - 1] == found;
      } else {
        assert Select(rows, candidates) == found;
      }
    }
  }

  function FileIds(rows: seq<DiscoveredRecord>): seq<nat>
    requires forall row :: row in rows ==> row.expected.fileId.Some?
  {
    if rows == [] then [] else [rows[0].expected.fileId.value] + FileIds(rows[1..])
  }

  lemma {:induction false} FileIdsAt(rows: seq<DiscoveredRecord>)
    requires forall row :: row in rows ==> row.expected.fileId.Some?
    ensures |FileIds(rows)| == |rows|
    ensures forall i :: 0 <= i < |rows| ==> FileIds(rows)[i] == rows[i].expected.fileId.value
    ensures (forall row :: row in rows ==> row.expected.fileId.value != 0) ==> 0 !in FileIds(rows)
  {
    if rows != [] {
      FileIdsAt(rows[1..]);
    }
  }

  function EditionIds(files: seq<FileMetadata>): seq<nat>
    requires forall file :: file in files ==> file.editionId.Some?
  {
    if files == [] then [] else [files[0].editionId.value] + EditionIds(files[1..])
  }

  lemma {:induction false} EditionIdsAt(files: seq<FileMetadata>)
    requires forall file :: file in files ==> file.editionId.Some?
    ensures |EditionIds(files)| == |files|
    ensures forall i :: 0 <= i < |files| ==> EditionIds(files)[i] == files[i].editionId.value
    ensures (forall file :: file in files ==> file.editionId.value != 0) ==> 0 !in EditionIds(files)
  {
    if files != [] {
      EditionIdsAt(files[1..]);
    }
  }

  /** A batch of positive ids is refused exactly when it has more than 100 distinct ones,
      and otherwise asks for each of them. */
  lemma BoundedIdentifiersFit(ids: seq<nat>)
    requires ids != [] && 0 !in ids
    ensures BoundedIdentifiers(ids).None? <==> |Unique(ids)| > 100
    ensures BoundedIdentifiers(ids).None? ==> |ids| > 100
    ensures BoundedIdentifiers(ids).Some? ==> forall id :: id in ids <==> id in BoundedIdentifiers(ids).value
  {
    UniqueIsNoLarger(ids);
    assert ids[0] in Unique(ids);
  }

  // ----- What the answers are, told by the source's records alone -----

  /** A candidate of a row: the metadata its record describes, and the edition that record
      belongs to unless it is rejected; replies of more than 512 KiB count for nothing. */
  ghost predicate DescribesCandidate(source: Source, row: DiscoveredRecord, found: Candidate) {
    && found.discovered == row
    && DescribesFile(source.files, row.expected, found.file)
    && source.fileBytes(ByMd5(source.files, row.expected.md5)) <= 524288
    && found.edition.Some? == (found.file.editionId.Some? && HasEdition(source, found.file))
    && (found.edition.Some? ==>
          DescribesEdition(source.editions, found.file.editionId.value, found.file.fileId, found.edition.value))
  }

  ghost predicate HasEdition(source: Source, file: FileMetadata)
    requires file.editionId.Some?
  {
    && source.editionBytes(ByIds(source.editions, {file.editionId.value})) <= 524288
    && exists edition :: DescribesEdition(source.editions, file.editionId.value, file.fileId, edition)
  }

  lemma OnlyItsMd5Matters(files: Payload<RawFile>, expected: Expectation, file: FileMetadata)
    ensures DescribesFile(ByMd5(files, expected.md5), expected, file) <==> DescribesFile(files, expected, file)
  {
    hide Print, IsMd5, Holds, BelongsTo, WithinTolerance;
    var found, key := ByMd5(files, expected.md5), Print(file.fileId);
    assert forall k :: k in found <==> k in files && files[k].Record? && files[k].record.md5 == expected.md5;
    assert forall k :: k in found ==> found[k] == files[k];
    if key in files && files[key].Record? && files[key].record.md5 == expected.md5 {
      assert found[key] == files[key];
    }
  }

  /** Asked for by MD5, a source finds exactly the file its records describe. */
  lemma FileVerdictExactly(source: Source, expected: Expectation, file: FileMetadata)
    ensures FileVerdict(source, expected).record == Some(file) <==> DescribesFile(source.files, expected, file)
    ensures FileVerdict(source, expected).alone == Some(file) <==>
      DescribesFile(source.files, expected, file) && source.fileBytes(ByMd5(source.files, expected.md5)) <= 524288
  {
    FileIsFoundExactly(ByMd5(source.files, expected.md5), expected, file);
    OnlyItsMd5Matters(source.files, expected, file);
    hide FindFile, DescribesFile, ByMd5;
  }

  lemma EditionVerdictExactly(source: Source, editionId: nat, fileId: nat, edition: EditionMetadata)
    ensures EditionVerdict(source, editionId, fileId).record == Some(edition) <==>
      DescribesEdition(source.editions, editionId, fileId, edition)
    ensures EditionVerdict(source, editionId, fileId).alone == Some(edition) <==>
      DescribesEdition(source.editions, editionId, fileId, edition)
      && source.editionBytes(ByIds(source.editions, {editionId})) <= 524288
  {
    hide FindEdition, Print, ByIds;
    EditionIsFoundExactly(ByIds(source.editions, {editionId}), editionId, fileId, edition);
    ByIdsKeeps(source.editions, {editionId}, editionId);
  }

  /** Enriching a row gives exactly the candidate the source's records describe. */
  lemma EnrichedExactly(source: Source, row: DiscoveredRecord, found: Candidate)
    ensures Enriched(source, row) == Some(found) <==> DescribesCandidate(source, row, found)
  {
    hide FileVerdict, EditionVerdict, DescribesFile, DescribesEdition, ByMd5, ByIds;
    FileVerdictExactly(source, row.expected, found.file);
    if found.file.editionId.Some? {
      var editionId, fileId := found.file.editionId.value, found.file.fileId;
      var alone := EditionVerdict(source, editionId, fileId).alone;
      if alone.Some? {
        EditionVerdictExactly(source, editionId, fileId, alone.value);
      }
      if found.edition.Some? {
        EditionVerdictExactly(source, editionId, fileId, found.edition.value);
      }
      forall edition | DescribesEdition(source.editions, editionId, fileId, edition)
        ensures HasEdition(source, found.file) ==> alone.Some?
      {
        EditionVerdictExactly(source, editionId, fileId, edition);
      }
    }
  }

  /** Enriching several rows gives every candidate described for one of them, in the order
      of the rows. */
  lemma {:induction false} EnrichedAllExactly(source: Source, rows: seq<DiscoveredRecord>)
    ensures InOrder(EnrichedAll(source, rows), rows)
    ensures forall c :: c in EnrichedAll(source, rows) <==>
      exists row :: row in rows && DescribesCandidate(source, row, c)
  {
    hide Enriched, DescribesCandidate;
    if rows != [] {
      var front, last := rows[..|rows| - 1], rows[|rows| - 1];
      EnrichedAllExactly(source, front);
      var before, answer := EnrichedAll(source, front), Enriched(source, last);
      if answer.Some? {
        EnrichedExactly(source, last, answer.value);
        DescribedIsItsRows(source, last, answer.value);
        assert (before + [answer.value])[..|before|] == before;
      } else {
        assert before + [] == before;
      }
      forall c ensures DescribesCandidate(source, last, c) <==> answer == Some(c) {
        EnrichedExactly(source, last, c);
      }
      assert forall row :: row in rows <==> row in front || row == last;
    }
  }

  lemma DescribedIsItsRows(source: Source, row: DiscoveredRecord, found: Candidate)
    requires DescribesCandidate(source, row, found)
    ensures found.discovered == row
  {
  }

  lemma PendingAreFileIds(rows: seq<DiscoveredRecord>, pending: seq<DiscoveredRecord>, ids: set<nat>)
    requires forall row :: row in pending ==> row in rows && row.expected.fileId.Some?
    requires forall id :: id in ids ==> id in FileIds(pending)
    ensures AreFileIds(rows, ids)
  {
    FileIdsAt(pending);
    forall id | id in ids ensures exists row :: row in rows && row.expected.fileId == Some(id) {
      var i :| 0 <= i < |pending| && FileIds(pending)[i] == id;
      assert pending[i] in rows;
    }
  }

  lemma PendingAreEditionIds(source: Source, rows: seq<DiscoveredRecord>, pending: seq<FileMetadata>, ids: set<nat>)
    requires forall file :: file in pending ==> file.editionId.Some? && IsFileOf(source, rows, file)
    requires forall id :: id in ids ==> id in EditionIds(pending)
    ensures AreEditionIds(source, rows, ids)
  {
    hide IsFileOf;
    EditionIdsAt(pending);
    forall id | id in ids ensures exists file :: IsFileOf(source, rows, file) && file.editionId == Some(id) {
      var i :| 0 <= i < |pending| && EditionIds(pending)[i] == id;
      assert IsFileOf(source, rows, pending[i]);
    }
  }

  /** Setting one row's candidate, or leaving it, disturbs no other row. */
  lemma KeepsRight(source: Source, rows: seq<DiscoveredRecord>, row: DiscoveredRecord,
                   candidates: map<string, Candidate>, found: Option<Candidate>, exact: bool)
    requires DistinctMd5s(rows) && row in rows && RightSoFar(source, rows, candidates, exact)
    requires RightCandidate(source, row, found, exact)
    ensures var after := if found.Some? then candidates[row.expected.md5 := found.value] else candidates;
      && RightSoFar(source, rows, after, exact)
      && RightCandidate(source, row, CandidateOf(after, row), exact)
      && forall other :: other in rows && other != row ==> CandidateOf(after, other) == CandidateOf(candidates, other)
  {
  }

  lemma OneRow(source: Source, rows: seq<DiscoveredRecord>, found: Option<Candidate>, exact: bool)
    requires |rows| == 1 && RightCandidate(source, rows[0], found, exact)
    ensures var answers := if found.Some? then [found.value] else [];
      RightCandidates(source, rows, answers, exact) && (exact ==> answers == EnrichedAll(source, rows))
  {
    assert rows[..0] == [];
  }

  /** The rows that can be batched and have no key among these are pending. */
  ghost predicate HoldsUncached(pending: seq<DiscoveredRecord>, rows: seq<DiscoveredRecord>, origin: string,
                                keys: set<string>) {
    forall row :: row in rows && row.expected.fileId.Some? && FileCacheKey(origin, row.expected) !in keys ==>
      row in pending
  }

  /** The lookups of the first rows: answers that are right, and the rows without one, in
      a batch if they have an id. */
  ghost predicate LookedUp(source: Source, rows: seq<DiscoveredRecord>, done: nat, files: FileTable,
                           pending: seq<DiscoveredRecord>, individual: seq<DiscoveredRecord>, origin: string,
                           keys: set<string>, exact: bool) {
    && done <= |rows|
    && OrderedDicts.Valid(files) && PartOf(files.table, FileVerdicts(source, rows), exact)
    && (forall row :: row in pending ==> row in rows && row.expected.fileId.Some?)
    && (forall row :: row in individual ==> row in rows)
    && (forall j :: 0 <= j < done ==>
          rows[j].expected.md5 in files.table || rows[j] in pending || rows[j] in individual)
    && HoldsUncached(pending, rows[..done], origin, keys)
    && |files.order| + |pending| <= done
  }

  lemma LookedUpHit(source: Source, rows: seq<DiscoveredRecord>, done: nat, files: FileTable,
                    pending: seq<DiscoveredRecord>, individual: seq<DiscoveredRecord>, origin: string,
                    keys: set<string>, exact: bool, file: Option<FileMetadata>)
    requires LookedUp(source, rows, done, files, pending, individual, origin, keys, exact)
    requires done < |rows| && DistinctMd5s(rows) && FileCacheKey(origin, rows[done].expected) in keys
    requires Right(file, FileVerdict(source, rows[done].expected), exact)
    ensures LookedUp(source, rows, done + 1, Assign(files, rows[done].expected.md5, file), pending, individual, origin,
                     keys, exact)
  {
    hide FileVerdict, FileCacheKey, Assign, PartOf, Right;
    AssignAnswer(source, rows, rows[done], files, file, exact);
    assert rows[..done + 1] == rows[..done] + [rows[done]];
  }

  lemma LookedUpMiss(source: Source, rows: seq<DiscoveredRecord>, done: nat, files: FileTable,
                     pending: seq<DiscoveredRecord>, individual: seq<DiscoveredRecord>, origin: string,
                     keys: set<string>, exact: bool)
    requires LookedUp(source, rows, done, files, pending, individual, origin, keys, exact) && done < |rows|
    ensures rows[done].expected.fileId.None? ==>
      LookedUp(source, rows, done + 1, files, pending, individual + [rows[done]], origin, keys, exact)
    ensures rows[done].expected.fileId.Some? ==>
      LookedUp(source, rows, done + 1, files, pending + [rows[done]], individual, origin, keys, exact)
  {
    hide FileVerdict, FileCacheKey, PartOf, Right;
    assert rows[..done + 1] == rows[..done] + [rows[done]];
  }

  // ----- The enricher -----

  class LibGenMetadataEnricher {
    const cache: BoundedTTLCache<string, Metadata>
    const sources: Sources
    const family: Family
    // Whether every batch that any task asks for agrees with its rows asked for alone.
    const exact: bool

    ghost predicate Valid()
      reads this, cache
    {
      cache.Valid() && Unambiguous(family) && Coherent(cache.entries, sources, family, exact)
    }

    /** The rows belong to the family, each at its own origin. */
    ghost predicate OwnRows(rows: seq<DiscoveredRecord>) {
      forall row :: row in rows ==> family(row.origin, row.expected)
    }

    /** The rows belong to the family at this origin. */
    ghost predicate Known(rows: seq<DiscoveredRecord>, origin: string) {
      forall row :: row in rows ==> family(origin, row.expected)
    }

    constructor (cache: BoundedTTLCache<string, Metadata>, sources: Sources, family: Family, exact: bool)
      requires cache.Valid() && Unambiguous(family) && Coherent(cache.entries, sources, family, exact)
      ensures this.cache == cache && this.sources == sources && this.family == family && this.exact == exact && Valid()
    {
      this.cache := cache;
      this.sources := sources;
      this.family := family;
      this.exact := exact;
    }

    lemma KnownRowsAreParsed(rows: seq<DiscoveredRecord>, origin: string)
      requires Unambiguous(family) && Known(rows, origin)
      ensures ParsedRows(rows)
    {
    }

    /** Any clock: nothing is known about a reading. */
    method ReadClock() returns (now: real) {
      now := *;
    }

    method LookUp(key: string) returns (lookup: Lookup<Metadata>)
      requires Valid()
      modifies cache
      ensures Valid()
      ensures lookup.hit ==> key in old(cache.entries.table) && lookup.value == old(cache.entries.table[key].value)
      ensures cache.entries.table.Keys <= old(cache.entries.table.Keys)
    {
      var now := ReadClock();
      GetKeepsCoherence(cache.entries, sources, family, exact, key, now);
      GetTable(cache.entries, key, now);
      lookup := cache.Get(key, now);
    }

    method StoreFile(origin: string, expected: Expectation, file: Option<FileMetadata>)
      requires Valid() && family(origin, expected) && Right(file, FileVerdict(sources(origin), expected), exact)
      modifies cache
      ensures Valid()
    {
      var now := ReadClock();
      SetFileKeepsCoherence(cache.settings, cache.entries, sources, family, exact, origin, expected, file, now);
      cache.Set(FileCacheKey(origin, expected), WrapFile(file), now);
    }

    method StoreEdition(origin: string, editionId: nat, fileId: nat, edition: Option<EditionMetadata>)
      requires Valid() && Right(edition, EditionVerdict(sources(origin), editionId, fileId), exact)
      modifies cache
      ensures Valid()
    {
      var now := ReadClock();
      SetEditionKeepsCoherence(cache.settings, cache.entries, sources, family, exact, origin, editionId, fileId,
                               edition, now);
      cache.Set(EditionCacheKey(origin, editionId, fileId), WrapEdition(edition), now);
    }

    /** While a fetch is awaited, other tasks may take any number of cache steps. */
    method AwaitFetch()
      requires Valid()
      modifies cache
      ensures Valid()
    {
      var steps: nat := *;
      while steps > 0
        invariant Valid()
      {
        var kind: nat, key: string, origin: string := *, *, *;
        var expected: Expectation, file: Option<FileMetadata> := *, *;
        var editionId: nat, fileId: nat, edition: Option<EditionMetadata> := *, *, *;
        if kind == 0 {
          var lookup := LookUp(key);
        } else if family(origin, expected) && Right(file, FileVerdict(sources(origin), expected), exact) {
          StoreFile(origin, expected, file);
        } else if Right(edition, EditionVerdict(sources(origin), editionId, fileId), exact) {
          StoreEdition(origin, editionId, fileId, edition);
        }
        steps := steps - 1;
      }
    }

    /** One row: the answer of the source now, whatever the cache holds and whatever
        the clock reads. */
    method Enrich(discovered: DiscoveredRecord) returns (candidate: Option<Candidate>)
      requires Valid() && family(discovered.origin, discovered.expected)
      modifies cache
      ensures Valid()
      ensures RightCandidate(sources(discovered.origin), discovered, candidate, exact)
    {
      var origin, expected := discovered.origin, discovered.expected;
      var source := sources(origin);
      var file: FileMetadata;
      var lookup := LookUp(FileCacheKey(origin, expected));
      if lookup.hit {
        if !(lookup.value.Some? && lookup.value.value.FileValue?) {
          return None;
        }
        file := lookup.value.value.file;
      } else {
        AwaitFetch();
        var parsed := ParseFile(Md5Reply(source, expected.md5), expected);
        StoreFile(origin, expected, parsed);
        if parsed.None? {
          return None;
        }
        file := parsed.value;
      }

      var edition: Option<EditionMetadata> := None;
      if file.editionId.Some? {
        var editionId := file.editionId.value;
        lookup := LookUp(EditionCacheKey(origin, editionId, file.fileId));
        if lookup.hit {
          if lookup.value.Some? && lookup.value.value.EditionValue? {
            edition := Some(lookup.value.value.edition);
          }
        } else {
          AwaitFetch();
          edition := ParseEdition(EditionsReply(source, {editionId}), editionId, file.fileId);
          StoreEdition(origin, editionId, file.fileId, edition);
        }
      }
      return Some(Candidate(discovered, file, edition));
    }

    /** The cached answer for a row, if there is one. */
    method LookUpFile(origin: string, expected: Expectation) returns (hit: bool, file: Option<FileMetadata>)
      requires Valid() && family(origin, expected)
      modifies cache
      ensures Valid()
      ensures hit ==> Right(file, FileVerdict(sources(origin), expected), exact)
      ensures hit ==> FileCacheKey(origin, expected) in old(cache.entries.table)
      ensures cache.entries.table.Keys <= old(cache.entries.table.Keys)
    {
      var lookup := LookUp(FileCacheKey(origin, expected));
      hit := lookup.hit;
      file := if lookup.value.Some? && lookup.value.value.FileValue? then Some(lookup.value.value.file) else None;
    }

    method LookUpEdition(origin: string, editionId: nat, fileId: nat)
      returns (hit: bool, edition: Option<EditionMetadata>)
      requires Valid()
      modifies cache
      ensures Valid()
      ensures hit ==> Right(edition, EditionVerdict(sources(origin), editionId, fileId), exact)
    {
      var lookup := LookUp(EditionCacheKey(origin, editionId, fileId));
      hit := lookup.hit;
      edition :=
        if lookup.value.Some? && lookup.value.value.EditionValue? then Some(lookup.value.value.edition) else None;
    }

    /** Parse one row's file out of a batched reply and remember the verdict. */
    method AcceptFile(origin: string, ghost ids: set<nat>, reply: Reply<RawFile>, expected: Expectation)
      returns (file: Option<FileMetadata>)
      requires Valid() && family(origin, expected) && reply == FilesReply(sources(origin), ids)
      requires expected.fileId.Some? && expected.fileId.value in ids
      requires exact ==> FileBatchAgrees(sources(origin), ids, expected)
      modifies cache
      ensures Valid() && Right(file, FileVerdict(sources(origin), expected), exact)
    {
      BatchedFileAgrees(sources(origin), ids, expected);
      file := ParseFile(reply, expected);
      StoreFile(origin, expected, file);
    }

    method AcceptEdition(origin: string, ghost ids: set<nat>, reply: Reply<RawEdition>, editionId: nat, fileId: nat)
      returns (edition: Option<EditionMetadata>)
      requires Valid() && reply == EditionsReply(sources(origin), ids) && editionId in ids
      requires exact ==> EditionBatchAgrees(sources(origin), ids, editionId, fileId)
      modifies cache
      ensures Valid() && Right(edition, EditionVerdict(sources(origin), editionId, fileId), exact)
    {
      BatchedEditionAgrees(sources(origin), ids, editionId, fileId);
      edition := ParseEdition(reply, editionId, fileId);
      StoreEdition(origin, editionId, fileId, edition);
    }

    /** The rows whose file is cached, and the others split by whether they can be
        asked for in one batch. */
    method LookUpFiles(origin: string, rows: seq<DiscoveredRecord>)
      returns (files: FileTable, pending: seq<DiscoveredRecord>, individual: seq<DiscoveredRecord>)
      requires Valid() && Known(rows, origin) && DistinctMd5s(rows)
      modifies cache
      ensures Valid()
      ensures OrderedDicts.Valid(files) && PartOf(files.table, FileVerdicts(sources(origin), rows), exact)
      ensures forall row :: row in pending ==> row in rows && row.expected.fileId.Some?
      ensures HoldsUncached(pending, rows, origin, old(cache.entries.table.Keys))
      ensures forall row :: row in individual ==> row in rows
      ensures forall row :: row in rows ==> row.expected.md5 in files.table || row in pending || row in individual
      ensures |files.order| + |pending| <= |rows|
    {
      files, pending, individual := Empty(), [], [];
      ghost var source, keys := sources(origin), cache.entries.table.Keys;
      assert LookedUp(source, rows, 0, files, pending, individual, origin, keys, exact);
      for i := 0 to |rows|
        invariant Valid() && cache.entries.table.Keys <= keys
        invariant LookedUp(source, rows, i, files, pending, individual, origin, keys, exact)
      {
        hide Unambiguous, FileVerdict, EditionVerdict, Coherent, FileCacheKey, Assign, LookedUp;
        var row := rows[i];
        var hit, file := LookUpFile(origin, row.expected);
        if hit {
          LookedUpHit(source, rows, i, files, pending, individual, origin, keys, exact, file);
          files := Assign(files, row.expected.md5, file);
        } else {
          LookedUpMiss(source, rows, i, files, pending, individual, origin, keys, exact);
          if row.expected.fileId.None? {
            individual := individual + [row];
          } else {
            pending := pending + [row];
          }
        }
      }
      assert rows[..|rows|] == rows;
    }

    /** Every pending row's file out of one batched reply. */
    method AcceptFiles(origin: string, rows: seq<DiscoveredRecord>, pending: seq<DiscoveredRecord>, known: FileTable,
                       ghost ids: set<nat>, reply: Reply<RawFile>)
      returns (files: FileTable)
      requires Valid() && Known(rows, origin) && DistinctMd5s(rows)
      requires OrderedDicts.Valid(known) && PartOf(known.table, FileVerdicts(sources(origin), rows), exact)
      requires reply == FilesReply(sources(origin), ids)
      requires forall row :: row in pending ==>
        row in rows && row.expected.fileId.Some? && row.expected.fileId.value in ids
      requires exact ==> forall row :: row in pending ==> FileBatchAgrees(sources(origin), ids, row.expected)
      modifies cache
      ensures Valid()
      ensures OrderedDicts.Valid(files) && PartOf(files.table, FileVerdicts(sources(origin), rows), exact)
      ensures forall row :: row in pending ==> row.expected.md5 in files.table
      ensures known.table.Keys <= files.table.Keys
      ensures |files.order| <= |known.order| + |pending|
    {
      hide Unambiguous, FileVerdict, EditionVerdict, Coherent, FilesReply, FileBatchAgrees, PartOf, OrderedDicts.Valid,
        Assign, FileVerdicts, Right;
      files := known;
      for i := 0 to |pending|
        invariant Valid()
        invariant OrderedDicts.Valid(files) && PartOf(files.table, FileVerdicts(sources(origin), rows), exact)
        invariant forall j :: 0 <= j < i ==> pending[j].expected.md5 in files.table
        invariant known.table.Keys <= files.table.Keys
        invariant |files.order| <= |known.order| + i
      {
        var row := pending[i];
        assert row in rows;
        var file := AcceptFile(origin, ids, reply, row.expected);
        AssignAnswer(sources(origin), rows, row, files, file, exact);
        files := Assign(files, row.expected.md5, file);
      }
    }

    /** One request for every pending row, each checked against its own row. */
    method FetchFiles(origin: string, rows: seq<DiscoveredRecord>, pending: seq<DiscoveredRecord>, known: FileTable)
      returns (files: Option<FileTable>)
      requires Valid() && Known(rows, origin) && DistinctMd5s(rows)
      requires OrderedDicts.Valid(known) && PartOf(known.table, FileVerdicts(sources(origin), rows), exact)
      requires pending != [] && forall row :: row in pending ==> row in rows && row.expected.fileId.Some?
      requires exact ==> BatchesAgree(sources(origin), rows)
      modifies cache
      ensures Valid()
      ensures files.None? <==> |Unique(FileIds(pending))| > MAX_BATCH
      ensures files.None? ==> |pending| > MAX_BATCH
      ensures files.Some? ==>
        OrderedDicts.Valid(files.value) && PartOf(files.value.table, FileVerdicts(sources(origin), rows), exact)
      ensures files.Some? ==> forall row :: row in pending ==> row.expected.md5 in files.value.table
      ensures files.Some? ==> known.table.Keys <= files.value.table.Keys
      ensures files.Some? ==> |files.value.order| <= |known.order| + |pending|
    {
      hide Unambiguous, FileVerdict, EditionVerdict, Coherent, FilesReply, FileBatchAgrees;
      KnownRowsAreParsed(rows, origin);
      var ids := FileIds(pending);
      FileIdsAt(pending);
      BoundedIdentifiersFit(ids);
      var batch := BoundedIdentifiers(ids);
      if batch.None? {
        return None;
      }
      AwaitFetch();
      var reply := FilesReply(sources(origin), batch.value);
      PendingAreFileIds(rows, pending, batch.value);
      var table := AcceptFiles(origin, rows, pending, known, batch.value, reply);
      return Some(table);
    }

    /** The editions that are cached, and the files whose edition is not. */
    method LookUpEditions(origin: string, rows: seq<DiscoveredRecord>, files: FileTable)
      returns (editions: EditionTable, pending: seq<FileMetadata>)
      requires Valid() && Known(rows, origin) && DistinctMd5s(rows)
      requires OrderedDicts.Valid(files) && PartOf(files.table, FileVerdicts(sources(origin), rows), exact)
      modifies cache
      ensures Valid() && PartOf(editions, EditionVerdicts(sources(origin), rows), exact)
      ensures forall file :: file in pending ==> NamesEdition(sources(origin), rows, file)
      ensures EditionsCover(files, editions, pending)
      ensures |pending| <= |files.order|
    {
      hide Unambiguous, FileVerdict, EditionVerdict, Coherent;
      KnownRowsAreParsed(rows, origin);
      editions, pending := map[], [];
      for i := 0 to |files.order|
        invariant Valid() && PartOf(editions, EditionVerdicts(sources(origin), rows), exact)
        invariant forall file :: file in pending ==> NamesEdition(sources(origin), rows, file)
        invariant forall j :: 0 <= j < i ==> EditionCovered(files.table[files.order[j]], editions, pending)
        invariant |pending| <= i
      {
        var found := files.table[files.order[i]];
        if found.Some? && found.value.editionId.Some? {
          var file := found.value;
          FoundNamesEdition(sources(origin), rows, files.order[i], file, exact);
          var hit, edition := LookUpEdition(origin, file.editionId.value, file.fileId);
          if hit {
            editions := editions[file.fileId := edition];
          } else {
            pending := pending + [file];
          }
        }
      }
    }

    /** Every pending file's edition out of one batched reply. */
    method AcceptEditions(origin: string, ghost rows: seq<DiscoveredRecord>, pending: seq<FileMetadata>,
                          known: EditionTable, ghost ids: set<nat>, reply: Reply<RawEdition>)
      returns (editions: EditionTable)
      requires Valid() && PartOf(known, EditionVerdicts(sources(origin), rows), exact)
      requires reply == EditionsReply(sources(origin), ids)
      requires forall file :: file in pending ==>
        NamesEdition(sources(origin), rows, file) && file.editionId.Some? && file.editionId.value in ids
      requires exact ==> forall file :: file in pending ==>
        file.editionId.Some? && EditionBatchAgrees(sources(origin), ids, file.editionId.value, file.fileId)
      modifies cache
      ensures Valid()
      ensures PartOf(editions, EditionVerdicts(sources(origin), rows), exact)
      ensures forall file :: file in pending ==> file.fileId in editions
      ensures known.Keys <= editions.Keys
    {
      hide Unambiguous, FileVerdict, EditionVerdict, Coherent, EditionsReply, EditionBatchAgrees, IsFileOf;
      editions := known;
      for i := 0 to |pending|
        invariant Valid() && PartOf(editions, EditionVerdicts(sources(origin), rows), exact)
        invariant forall j :: 0 <= j < i ==> pending[j].fileId in editions
        invariant known.Keys <= editions.Keys
      {
        var file := pending[i];
        assert NamesEdition(sources(origin), rows, file);
        var edition := AcceptEdition(origin, ids, reply, file.editionId.value, file.fileId);
        editions := editions[file.fileId := edition];
      }
    }

    /** One request for every pending edition, each checked against its own file. */
    method FetchEditions(origin: string, ghost rows: seq<DiscoveredRecord>, pending: seq<FileMetadata>,
                         known: EditionTable)
      returns (editions: Option<EditionTable>)
      requires Valid() && PartOf(known, EditionVerdicts(sources(origin), rows), exact)
      requires pending != [] && forall file :: file in pending ==> file.editionId.Some?
      requires forall file :: file in pending ==> NamesEdition(sources(origin), rows, file)
      requires exact ==> BatchesAgree(sources(origin), rows)
      modifies cache
      ensures Valid()
      ensures editions.None? <==> |Unique(EditionIds(pending))| > MAX_BATCH
      ensures editions.None? ==> |pending| > MAX_BATCH
      ensures editions.Some? ==> PartOf(editions.value, EditionVerdicts(sources(origin), rows), exact)
      ensures editions.Some? ==> forall file :: file in pending ==> file.fileId in editions.value
      ensures editions.Some? ==> known.Keys <= editions.value.Keys
    {
      hide Unambiguous, FileVerdict, EditionVerdict, Coherent, EditionsReply, EditionBatchAgrees, IsFileOf, PartOf;
      var ids := EditionIds(pending);
      EditionIdsAt(pending);
      BoundedIdentifiersFit(ids);
      var batch := BoundedIdentifiers(ids);
      if batch.None? {
        return None;
      }
      AwaitFetch();
      var reply := EditionsReply(sources(origin), batch.value);
      PendingAreEditionIds(sources(origin), rows, pending, batch.value);
      forall file | file in pending ensures file.editionId.value in batch.value {
        var i :| 0 <= i < |pending| && pending[i] == file;
        assert ids[i] in batch.value;
      }
      var table := AcceptEditions(origin, rows, pending, known, batch.value, reply);
      return Some(table);
    }

    /** The candidates of the rows whose file is known. */
    method BuildCandidates(origin: string, rows: seq<DiscoveredRecord>, files: FileTable, editions: EditionTable)
      returns (candidates: map<string, Candidate>)
      requires DistinctMd5s(rows) && ParsedRows(rows)
      requires PartOf(files.table, FileVerdicts(sources(origin), rows), exact)
      requires PartOf(editions, EditionVerdicts(sources(origin), rows), exact) && EditionsCover(files, editions, [])
      ensures RightSoFar(sources(origin), rows, candidates, exact)
      ensures forall row :: row in rows && row.expected.md5 in files.table ==>
        RightCandidate(sources(origin), row, CandidateOf(candidates, row), exact)
    {
      hide Unambiguous, FileVerdict, EditionVerdict, Coherent, RightCandidate;
      candidates := map[];
      for i := 0 to |rows|
        invariant RightSoFar(sources(origin), rows, candidates, exact)
        invariant forall row :: row in rows[..i] && row.expected.md5 in files.table ==>
          RightCandidate(sources(origin), row, CandidateOf(candidates, row), exact)
      {
        var row := rows[i];
        assert rows[..i + 1] == rows[..i] + [row];
        if row.expected.md5 in files.table {
          assert EditionCovered(files.table[row.expected.md5], editions, []);
          RightFromTables(sources(origin), rows, row, files.table, editions, exact);
          var candidate := FromTables(row, files.table[row.expected.md5], editions);
          KeepsRight(sources(origin), rows, row, candidates, candidate, exact);
          if candidate.Some? {
            candidates := candidates[row.expected.md5 := candidate.value];
          }
        }
      }
      assert rows[..|rows|] == rows;
    }

    /** The rows that cannot be batched are enriched one at a time. */
    method EnrichIndividually(origin: string, ghost rows: seq<DiscoveredRecord>, individual: seq<DiscoveredRecord>,
                              known: map<string, Candidate>)
      returns (candidates: map<string, Candidate>)
      requires Valid() && DistinctMd5s(rows) && Known(rows, origin)
      requires forall row :: row in individual ==> row in rows && row.origin == origin
      requires RightSoFar(sources(origin), rows, known, exact)
      modifies cache
      ensures Valid() && RightSoFar(sources(origin), rows, candidates, exact)
      ensures forall row :: row in rows ==>
        RightCandidate(sources(origin), row, CandidateOf(known, row), exact) || row in individual ==>
          RightCandidate(sources(origin), row, CandidateOf(candidates, row), exact)
    {
      hide Unambiguous, FileVerdict, EditionVerdict, Coherent, RightCandidate;
      candidates := known;
      for i := 0 to |individual|
        invariant Valid() && RightSoFar(sources(origin), rows, candidates, exact)
        invariant forall row :: row in rows ==>
          RightCandidate(sources(origin), row, CandidateOf(known, row), exact) || row in individual[..i] ==>
            RightCandidate(sources(origin), row, CandidateOf(candidates, row), exact)
      {
        var row := individual[i];
        assert row in rows;
        var candidate := Enrich(row);
        KeepsRight(sources(origin), rows, row, candidates, candidate, exact);
        assert individual[..i + 1] == individual[..i] + [row];
        if candidate.Some? {
          candidates := candidates[row.expected.md5 := candidate.value];
        }
      }
      assert individual[..|individual|] == individual;
    }

    /** Batched enrichment: for any clock, any coherent cache and any capacity, every
        candidate is right for its row and they come in the order of the rows.  When the
        batches agree with the rows asked for alone, they are exactly the rows' own
        answers.  `asked` and `askedEditions` are what was not cached. */
    method EnrichMany(rows: seq<DiscoveredRecord>)
      returns (result: Result<seq<Candidate>, EnrichError>, ghost asked: seq<DiscoveredRecord>,
               ghost askedEditions: seq<FileMetadata>)
      requires Valid() && OwnRows(rows) && DistinctMd5s(rows)
      requires exact && |rows| > 1 && OneOrigin(rows) ==> BatchesAgree(sources(rows[0].origin), rows)
      modifies cache
      ensures Valid()
      ensures result == Err(ConflictingOrigins) <==> |rows| > 1 && !OneOrigin(rows)
      ensures forall row :: row in asked ==> row in rows && row.expected.fileId.Some?
      ensures forall file :: file in askedEditions ==>
        rows != [] && file.editionId.Some? && IsFileOf(sources(rows[0].origin), rows, file)
      ensures |rows| > 1 && OneOrigin(rows) ==>
        HoldsUncached(asked, rows, rows[0].origin, old(cache.entries.table.Keys))
      ensures result == Err(InvalidBatch) <==>
        |Unique(FileIds(asked))| > MAX_BATCH || |Unique(EditionIds(askedEditions))| > MAX_BATCH
      ensures result == Err(InvalidBatch) ==> |rows| > MAX_BATCH
      ensures result.Ok? && rows != [] && exact ==> result.value == EnrichedAll(sources(rows[0].origin), rows)
      ensures result.Ok? && rows != [] ==> RightCandidates(sources(rows[0].origin), rows, result.value, exact)
      ensures rows == [] ==> result == Ok([])
    {
      hide Unambiguous, FileVerdict, EditionVerdict, Coherent, Enriched, RightCandidate, IsFileOf, BatchesAgree,
        FileCacheKey;
      asked, askedEditions := [], [];
      assert Unique([]) == {};
      if rows == [] {
        return Ok([]), [], [];
      }
      var origin := rows[0].origin;
      if |rows| == 1 {
        var only := Enrich(rows[0]);
        OneRow(sources(origin), rows, only, exact);
        return Ok(if only.Some? then [only.value] else []), [], [];
      }
      if !OneOrigin(rows) {
        return Err(ConflictingOrigins), [], [];
      }
      assert Known(rows, origin);
      KnownRowsAreParsed(rows, origin);

      var files, pending, individual := LookUpFiles(origin, rows);
      asked := pending;
      if pending != [] {
        var fetched := FetchFiles(origin, rows, pending, files);
        if fetched.None? {
          return Err(InvalidBatch), asked, [];
        }
        files := fetched.value;
      }

      var editions, pendingEditions := LookUpEditions(origin, rows, files);
      askedEditions := pendingEditions;
      if pendingEditions != [] {
        var fetchedEditions := FetchEditions(origin, rows, pendingEditions, editions);
        if fetchedEditions.None? {
          return Err(InvalidBatch), asked, askedEditions;
        }
        editions := fetchedEditions.value;
      }

      var candidates := BuildCandidates(origin, rows, files, editions);
      candidates := EnrichIndividually(origin, rows, individual, candidates);
      SelectIsRight(sources(origin), rows, candidates, exact);
      return Ok(Select(rows, candidates)), asked, askedEditions;
    }
  }
}
