/** Keyed LibGen metadata: decoded JSON records, their validation against a
    discovered row, and the answers a fixed source gives. */
module LibGenMetadata {
  import opened Results
  import opened Decimals
  import IssueNumbers

  /** One decoded JSON field: None or "", a usable value, or one that is rejected. */
  datatype Field<T> = Blank | Given(value: T) | Malformed

  /** One entry of a relation mapping: not keyed by the wanted field, or an identifier. */
  datatype Relation = Unkeyed | Keyed(id: Field<nat>)

  datatype Relations = NoRelations | NotAMapping | Mapping(entries: seq<Relation>)

  /** A value of the top-level JSON object. */
  datatype Json<T> = Scalar | Record(record: T)

  type Payload<T> = map<string, Json<T>>

  /** One reply: its records, and the length of its text in bytes. */
  datatype Reply<T> = Reply(records: Payload<T>, bytes: nat)

  const MAX_JSON_BYTES := 512 * 1024

  predicate Fits<T>(reply: Reply<T>) {
    reply.bytes <= MAX_JSON_BYTES
  }

  datatype RawFile = RawFile(
    md5: string,
    visible: Field<bool>,
    broken: Field<bool>,
    filesize: Field<nat>,
    extension: Field<string>,
    editions: Relations,
    pages: Field<nat>,
    locator: Field<string>,
    comicsId: Field<nat>)

  datatype RawEdition = RawEdition(
    visible: Field<bool>,
    files: Relations,
    issueNumber: Field<IssueNumbers.Issue>,
    year: Field<nat>,
    texts: seq<Field<string>>)

  datatype FileMetadata = FileMetadata(
    fileId: nat,
    md5: string,
    pages: Option<nat>,
    sizeBytes: Option<nat>,
    extension: Option<string>,
    locator: Option<string>,
    comicsId: Option<nat>,
    editionId: Option<nat>)

  datatype EditionMetadata = EditionMetadata(
    editionId: nat,
    issueNumber: Option<string>,
    year: Option<nat>,
    texts: seq<Option<string>>)

  /** What a discovered row says about its file. */
  datatype Expectation = Expectation(
    md5: string,
    fileId: Option<nat>,
    editionId: Option<nat>,
    sizeBytes: Option<nat>,
    sizeTolerance: Option<nat>,
    extension: Option<string>)

  predicate IsMd5(s: string) {
    |s| == 32 && forall c :: c in s ==> IsDigit(c) || 'a' <= c <= 'f'
  }

  /** The text of a positive identifier. */
  predicate IsIdentifier(s: string) {
    IsCanonical(s) && Parse(s) >= 1
  }

  /** An optional field: absent, present, or an error (None). */
  function Optional<T>(field: Field<T>): Option<Option<T>> {
    match field
    case Blank => Some(None)
    case Given(value) => Some(Some(value))
    case Malformed => None
  }

  function OptionalIdentifier(field: Field<nat>): Option<Option<nat>> {
    if field == Given(0) then None else Optional(field)
  }

  function Flag(field: Field<bool>, default: bool): Option<bool> {
    match field
    case Blank => Some(default)
    case Given(value) => Some(value)
    case Malformed => None
  }

  predicate BadRelation(relation: Relation) {
    relation.Keyed? && !(relation.id.Given? && relation.id.value >= 1)
  }

  /** The identifiers of a relation mapping; None when it or one of them is malformed. */
  function RelationIds(relations: Relations): Option<set<nat>> {
    match relations
    case NoRelations => Some({})
    case NotAMapping => None
    case Mapping(entries) =>
      if exists r :: r in entries && BadRelation(r) then None
      else Some(set r | r in entries && r.Keyed? && r.id.Given? :: r.id.value)
  }

  /** The source's loop over the relation entries. */
  method CollectRelationIds(relations: Relations) returns (ids: Option<set<nat>>)
    ensures ids == RelationIds(relations)
  {
    if relations.NoRelations? {
      return Some({});
    }
    if relations.NotAMapping? {
      return None;
    }
    var found: set<nat> := {};
    for i := 0 to |relations.entries|
      invariant forall j :: 0 <= j < i ==> !BadRelation(relations.entries[j])
      invariant found == set r | r in relations.entries[..i] && r.Keyed? && r.id.Given? :: r.id.value
    {
      var relation := relations.entries[i];
      assert relations.entries[..i + 1] == relations.entries[..i] + [relation];
      if relation.Keyed? {
        if !relation.id.Given? || relation.id.value < 1 {
          assert BadRelation(relation);
          return None;
        }
        found := found + {relation.id.value};
      }
    }
    assert relations.entries[..|relations.entries|] == relations.entries;
    return Some(found);
  }

  ghost predicate IsMin(m: nat, ids: set<nat>) {
    m in ids && forall i :: i in ids ==> m <= i
  }

  lemma MinExists(ids: set<nat>)
    requires ids != {}
    ensures exists m :: IsMin(m, ids)
  {
    var m :| m in ids;
    var rest := ids - {m};
    if rest == {} {
      assert ids == rest + {m};
      assert IsMin(m, ids);
    } else {
      MinExists(rest);
      var n :| IsMin(n, rest);
      assert forall i :: i in ids ==> i == m || i in rest;
      assert IsMin(if m < n then m else n, ids);
    }
  }

  function Min(ids: set<nat>): (m: nat)
    requires ids != {}
    ensures IsMin(m, ids)
  {
    MinExists(ids);
    var m :| m in ids && forall i :: i in ids ==> m <= i;
    m
  }

  lemma OneMember<T>(s: set<T>)
    requires |s| == 1
    ensures forall x, y :: x in s && y in s ==> x == y
  {
    var x :| x in s;
    assert |s - {x}| == 0;
    assert s == (s - {x}) + {x};
  }

  function TheOnly<T>(s: set<T>): (x: T)
    requires |s| == 1
    ensures x in s
  {
    OneMember(s);
    var x :| x in s;
    x
  }

  function Carriers(payload: Payload<RawFile>, md5: string): set<string> {
    set k | k in payload && payload[k].Record? && payload[k].record.md5 == md5
  }

  /** The key of the record the row is about: its own file id, or the one record
      that carries its MD5. */
  function FileKeyOf(payload: Payload<RawFile>, expected: Expectation): Option<string> {
    if expected.fileId.Some? then
      var key := Print(expected.fileId.value);
      if key in payload && payload[key].Record? then Some(key) else None
    else if |Carriers(payload, expected.md5)| == 1 then
      Some(TheOnly(Carriers(payload, expected.md5)))
    else
      None
  }

  predicate SizeConflicts(size: Option<nat>, expected: Expectation) {
    && expected.sizeBytes.Some? && size.Some?
    && var tolerance := if expected.sizeTolerance.Some? then expected.sizeTolerance.value else 0;
       size.value > expected.sizeBytes.value + tolerance || expected.sizeBytes.value > size.value + tolerance
  }

  /** The edition a file belongs to; an error (None) when the row names another. */
  function ChooseEdition(ids: set<nat>, expected: Option<nat>): Option<Option<nat>> {
    if expected.Some? then
      if ids != {} && expected.value !in ids then None else Some(expected)
    else
      Some(if ids != {} then Some(Min(ids)) else None)
  }

  function CheckFile(key: string, raw: RawFile, expected: Expectation): Option<FileMetadata> {
    var visible, broken := Flag(raw.visible, true), Flag(raw.broken, false);
    var size, extension := Optional(raw.filesize), Optional(raw.extension);
    var ids := RelationIds(raw.editions);
    var pages, locator, comicsId := Optional(raw.pages), Optional(raw.locator), OptionalIdentifier(raw.comicsId);
    if !IsIdentifier(key) then None
    else if expected.fileId.Some? && expected.fileId.value != Parse(key) then None
    else if !IsMd5(raw.md5) || raw.md5 != expected.md5 then None
    else if visible.None? || !visible.value then None
    else if broken.None? || broken.value then None
    else if size.None? || SizeConflicts(size.value, expected) then None
    else if extension.None? then None
    else if expected.extension.Some? && extension.value.Some? && extension.value != expected.extension then None
    else if ids.None? then None
    else
      var edition := ChooseEdition(ids.value, expected.editionId);
      if edition.None? || pages.None? || locator.None? || comicsId.None? then None
      else Some(FileMetadata(Parse(key), raw.md5, pages.value, size.value, extension.value, locator.value,
                             comicsId.value, edition.value))
  }

  /** What the records of a payload say about a row, however long their text is. */
  function FindFile(payload: Payload<RawFile>, expected: Expectation): Option<FileMetadata> {
    if payload == map[] then None
    else
      var key := FileKeyOf(payload, expected);
      if key.None? then None else CheckFile(key.value, payload[key.value].record, expected)
  }

  /** Validation of a file reply; None stands for LibGenMetadataError. */
  function ParseFile(reply: Reply<RawFile>, expected: Expectation): Option<FileMetadata> {
    if Fits(reply) then FindFile(reply.records, expected) else None
  }

  /** The stateless form used by resolve: nothing is known but the MD5. */
  function ParseFileByMd5(reply: Reply<RawFile>, md5: string): Option<FileMetadata> {
    if IsMd5(md5) then ParseFile(reply, Expectation(md5, None, None, None, None, None)) else None
  }

  function Texts(fields: seq<Field<string>>): Option<seq<Option<string>>> {
    if fields == [] then Some([])
    else
      var first, rest := Optional(fields[0]), Texts(fields[1..]);
      if first.None? || rest.None? then None else Some([first.value] + rest.value)
  }

  function CheckEdition(raw: RawEdition, editionId: nat, fileId: nat): Option<EditionMetadata> {
    var visible, files := Flag(raw.visible, true), RelationIds(raw.files);
    var issue, year, texts := Optional(raw.issueNumber), Optional(raw.year), Texts(raw.texts);
    if visible.None? || !visible.value then None
    else if files.None? || (files.value != {} && fileId !in files.value) then None
    else if issue.None? || year.None? || texts.None? then None
    else if year.value.Some? && !(1800 <= year.value.value <= 2200) then None
    else
      var number := if issue.value.Some? then IssueNumbers.Normalize(IssueNumbers.Text(issue.value.value)) else None;
      Some(EditionMetadata(editionId, number, year.value, texts.value))
  }

  function FindEdition(payload: Payload<RawEdition>, editionId: nat, fileId: nat): Option<EditionMetadata> {
    var key := Print(editionId);
    if key in payload && payload[key].Record? then CheckEdition(payload[key].record, editionId, fileId) else None
  }

  function ParseEdition(reply: Reply<RawEdition>, editionId: nat, fileId: nat): Option<EditionMetadata> {
    if Fits(reply) then FindEdition(reply.records, editionId, fileId) else None
  }

  // ----- A fixed source and the replies it gives -----

  /** The records of a source, and how long its texts for any of them are. */
  datatype Source = Source(
    files: Payload<RawFile>,
    editions: Payload<RawEdition>,
    fileBytes: Payload<RawFile> -> nat,
    editionBytes: Payload<RawEdition> -> nat)

  function ByMd5(files: Payload<RawFile>, md5: string): Payload<RawFile> {
    map k | k in files && files[k].Record? && files[k].record.md5 == md5 :: files[k]
  }

  function ByIds<T>(table: Payload<T>, ids: set<nat>): Payload<T> {
    map k | k in table && IsCanonical(k) && Parse(k) in ids :: table[k]
  }

  lemma ByIdsKeeps<T>(table: Payload<T>, ids: set<nat>, id: nat)
    requires id in ids
    ensures Print(id) in ByIds(table, ids) <==> Print(id) in table
    ensures Print(id) in table ==> ByIds(table, ids)[Print(id)] == table[Print(id)]
  {
    ParsePrint(id);
  }

  function Md5Reply(source: Source, md5: string): Reply<RawFile> {
    var records := ByMd5(source.files, md5);
    Reply(records, source.fileBytes(records))
  }

  function FilesReply(source: Source, ids: set<nat>): Reply<RawFile> {
    var records := ByIds(source.files, ids);
    Reply(records, source.fileBytes(records))
  }

  function EditionsReply(source: Source, ids: set<nat>): Reply<RawEdition> {
    var records := ByIds(source.editions, ids);
    Reply(records, source.editionBytes(records))
  }

  /** Asking for a file by its id among others gives the verdict that asking for its MD5
      gives exactly when both replies fit or neither does, or the file is rejected anyway. */
  lemma BatchedFileAgrees(source: Source, ids: set<nat>, expected: Expectation)
    requires expected.fileId.Some? && expected.fileId.value in ids
    ensures FindFile(ByIds(source.files, ids), expected) == FindFile(ByMd5(source.files, expected.md5), expected)
    ensures (ParseFile(FilesReply(source, ids), expected) == ParseFile(Md5Reply(source, expected.md5), expected)) <==>
      FindFile(ByMd5(source.files, expected.md5), expected).None?
      || (Fits(FilesReply(source, ids)) <==> Fits(Md5Reply(source, expected.md5)))
  {
    var files := source.files;
    ByIdsKeeps(files, ids, expected.fileId.value);
    var key := Print(expected.fileId.value);
    if key in files && files[key].Record? {
      assert key in ByIds(files, ids);
      if files[key].record.md5 == expected.md5 {
        assert key in ByMd5(files, expected.md5);
      }
    }
  }

  lemma BatchedEditionAgrees(source: Source, ids: set<nat>, editionId: nat, fileId: nat)
    requires editionId in ids
    ensures FindEdition(ByIds(source.editions, ids), editionId, fileId)
         == FindEdition(ByIds(source.editions, {editionId}), editionId, fileId)
    ensures (ParseEdition(EditionsReply(source, ids), editionId, fileId)
             == ParseEdition(EditionsReply(source, {editionId}), editionId, fileId)) <==>
      FindEdition(ByIds(source.editions, {editionId}), editionId, fileId).None?
      || (Fits(EditionsReply(source, ids)) <==> Fits(EditionsReply(source, {editionId})))
  {
    ByIdsKeeps(source.editions, ids, editionId);
    ByIdsKeeps(source.editions, {editionId}, editionId);
  }

  // ----- What an accepted record guarantees -----

  /** An optional value is the field's own. */
  predicate Shows<T(==)>(field: Field<T>, value: Option<T>) {
    if value.Some? then field == Given(value.value) else field.Blank?
  }

  ghost predicate IsReadable(relations: Relations) {
    !relations.NotAMapping? && forall r :: Related(relations, r) && r.Keyed? ==> r.id.Given? && r.id.value >= 1
  }

  predicate Related(relations: Relations, relation: Relation) {
    relations.Mapping? && relation in relations.entries
  }

  predicate Lists(relations: Relations, id: nat) {
    Related(relations, Keyed(Given(id)))
  }

  predicate WithinTolerance(expected: Expectation, actual: nat) {
    expected.sizeBytes.Some? ==>
      var shown: int, tolerance := expected.sizeBytes.value,
        if expected.sizeTolerance.Some? then expected.sizeTolerance.value else 0;
      shown - tolerance <= actual <= shown + tolerance
  }

  /** The record is visible and unbroken, carries the row's MD5 sum and contradicts neither
      its size nor its extension. */
  predicate IsOffered(raw: RawFile, expected: Expectation) {
    && raw.md5 == expected.md5 && IsMd5(raw.md5)
    && (raw.visible.Blank? || raw.visible == Given(true))
    && (raw.broken.Blank? || raw.broken == Given(false))
    && (raw.filesize.Given? ==> WithinTolerance(expected, raw.filesize.value))
    && (raw.extension.Given? && expected.extension.Some? ==> raw.extension.value == expected.extension.value)
  }

  /** The edition is the row's own, which the record lists if it lists any, or otherwise the
      smallest the record lists. */
  ghost predicate BelongsTo(relations: Relations, expected: Option<nat>, edition: Option<nat>) {
    && IsReadable(relations)
    && if expected.Some? then
         edition == expected && ((exists id :: Lists(relations, id)) ==> Lists(relations, expected.value))
       else if edition.Some? then
         Lists(relations, edition.value) && forall id :: Lists(relations, id) ==> edition.value <= id
       else
         forall id :: !Lists(relations, id)
  }

  /** The metadata holds what the record says. */
  predicate Holds(raw: RawFile, file: FileMetadata) {
    && file.md5 == raw.md5
    && Shows(raw.pages, file.pages) && Shows(raw.filesize, file.sizeBytes)
    && Shows(raw.extension, file.extension) && Shows(raw.locator, file.locator)
    && Shows(raw.comicsId, file.comicsId) && file.comicsId != Some(0)
  }

  /** The metadata of a row, told by the records alone: it is the record under its own id,
      which is the row's if the row has one and otherwise the only one with its MD5 sum. */
  ghost predicate DescribesFile(payload: Payload<RawFile>, expected: Expectation, file: FileMetadata) {
    && file.fileId >= 1 && Print(file.fileId) in payload && payload[Print(file.fileId)].Record?
    && (if expected.fileId.Some? then expected.fileId.value == file.fileId
        else forall k :: k in payload && payload[k].Record? && payload[k].record.md5 == expected.md5 ==>
               k == Print(file.fileId))
    && var raw := payload[Print(file.fileId)].record;
       IsOffered(raw, expected) && Holds(raw, file) && BelongsTo(raw.editions, expected.editionId, file.editionId)
  }

  ghost predicate DescribesEdition(payload: Payload<RawEdition>, editionId: nat, fileId: nat,
                                   edition: EditionMetadata) {
    && edition.editionId == editionId && Print(editionId) in payload && payload[Print(editionId)].Record?
    && var raw := payload[Print(editionId)].record;
       && (raw.visible.Blank? || raw.visible == Given(true))
       && IsReadable(raw.files) && ((exists id :: Lists(raw.files, id)) ==> Lists(raw.files, fileId))
       && !raw.issueNumber.Malformed?
       && edition.issueNumber == (if raw.issueNumber.Given?
                                  then IssueNumbers.Normalize(IssueNumbers.Text(raw.issueNumber.value)) else None)
       && Shows(raw.year, edition.year) && (edition.year.Some? ==> 1800 <= edition.year.value <= 2200)
       && |edition.texts| == |raw.texts|
       && forall i :: 0 <= i < |raw.texts| ==> Shows(raw.texts[i], edition.texts[i])
  }

  lemma RelationIdsExactly(relations: Relations)
    ensures RelationIds(relations).Some? <==> IsReadable(relations)
    ensures RelationIds(relations).Some? ==>
      forall id :: id in RelationIds(relations).value <==> Lists(relations, id)
  {
    if relations.Mapping? {
      assert forall r :: r in relations.entries <==> Related(relations, r);
    }
  }

  lemma ChosenEditionBelongs(relations: Relations, expected: Option<nat>, edition: Option<nat>)
    ensures RelationIds(relations).Some? && ChooseEdition(RelationIds(relations).value, expected) == Some(edition)
      <==> BelongsTo(relations, expected, edition)
  {
    hide RelationIds, IsReadable, Lists;
    RelationIdsExactly(relations);
    if RelationIds(relations).Some? {
      var ids := RelationIds(relations).value;
      assert ids != {} <==> exists id :: Lists(relations, id) by {
        if ids != {} {
          assert Lists(relations, Min(ids));
        }
      }
      if expected.None? && edition.Some? && IsMin(edition.value, ids) {
        assert Min(ids) == edition.value;
      }
    }
  }

  lemma SizeConflictsExactly(field: Field<nat>, expected: Expectation)
    requires !field.Malformed?
    ensures SizeConflicts(Optional(field).value, expected) <==> field.Given? && !WithinTolerance(expected, field.value)
  {
  }

  /** One record is accepted as the metadata it should be, and no other. */
  lemma CheckedFileExactly(id: nat, raw: RawFile, expected: Expectation, file: FileMetadata)
    requires expected.fileId.None? || expected.fileId.value == id
    ensures CheckFile(Print(id), raw, expected) == Some(file) <==>
      && id >= 1 && file.fileId == id && IsOffered(raw, expected) && Holds(raw, file)
      && BelongsTo(raw.editions, expected.editionId, file.editionId)
  {
    hide RelationIds, ChooseEdition, BelongsTo, SizeConflicts, WithinTolerance, Print, IsMd5, IsCanonical, Parse;
    ParsePrint(id);
    ChosenEditionBelongs(raw.editions, expected.editionId, file.editionId);
    if !raw.filesize.Malformed? {
      SizeConflictsExactly(raw.filesize, expected);
    }
  }

  lemma CheckedFileHasItsKey(key: string, raw: RawFile, expected: Expectation)
    requires CheckFile(key, raw, expected).Some?
    ensures key == Print(CheckFile(key, raw, expected).value.fileId) && raw.md5 == expected.md5
    ensures expected.fileId.Some? ==> expected.fileId.value == CheckFile(key, raw, expected).value.fileId
  {
    hide RelationIds, ChooseEdition, SizeConflicts;
    PrintParse(key);
  }

  /** A row finds exactly the metadata that the records describe. */
  lemma FileIsFoundExactly(payload: Payload<RawFile>, expected: Expectation, file: FileMetadata)
    ensures FindFile(payload, expected) == Some(file) <==> DescribesFile(payload, expected, file)
  {
    hide CheckFile, Holds, BelongsTo, Print, Parse;
    var carriers := Carriers(payload, expected.md5);
    if FindFile(payload, expected) == Some(file) {
      var key := FileKeyOf(payload, expected).value;
      CheckedFileHasItsKey(key, payload[key].record, expected);
      CheckedFileExactly(file.fileId, payload[key].record, expected, file);
      if expected.fileId.None? {
        OneMember(carriers);
        assert key in carriers;
        assert forall k :: k in payload && payload[k].Record? && payload[k].record.md5 == expected.md5 ==>
          k in carriers;
      }
      assert DescribesFile(payload, expected, file);
    }
    if DescribesFile(payload, expected, file) {
      var key := Print(file.fileId);
      CheckedFileExactly(file.fileId, payload[key].record, expected, file);
      if expected.fileId.None? {
        assert carriers == {key};
        assert TheOnly(carriers) == key;
      }
      assert FindFile(payload, expected) == Some(file);
    }
  }

  lemma {:induction false} TextsExactly(fields: seq<Field<string>>, texts: seq<Option<string>>)
    ensures Texts(fields) == Some(texts) <==>
      |texts| == |fields| && forall i :: 0 <= i < |fields| ==> Shows(fields[i], texts[i])
  {
    if fields == [] {
    } else if texts == [] {
    } else {
      TextsExactly(fields[1..], texts[1..]);
      assert texts == [texts[0]] + texts[1..];
      assert forall i :: 1 <= i < |fields| ==> fields[1..][i - 1] == fields[i];
      assert forall i :: 1 <= i < |texts| ==> texts[1..][i - 1] == texts[i];
      if |texts| == |fields| && forall i :: 0 <= i < |fields| ==> Shows(fields[i], texts[i]) {
        assert Shows(fields[0], texts[0]);
        forall i | 0 <= i < |fields| - 1 ensures Shows(fields[1..][i], texts[1..][i]) {
          assert Shows(fields[i + 1], texts[i + 1]);
        }
      }
      if Texts(fields) == Some(texts) {
        forall i | 0 <= i < |fields| ensures Shows(fields[i], texts[i]) {
          if i > 0 {
            assert Shows(fields[1..][i - 1], texts[1..][i - 1]);
          }
        }
      }
    }
  }

  /** An edition is found exactly as its record describes it. */
  lemma EditionIsFoundExactly(payload: Payload<RawEdition>, editionId: nat, fileId: nat, edition: EditionMetadata)
    ensures FindEdition(payload, editionId, fileId) == Some(edition) <==>
      DescribesEdition(payload, editionId, fileId, edition)
  {
    hide Print, RelationIds, IsReadable, Lists, Texts, IssueNumbers.Normalize, IssueNumbers.Text;
    var key := Print(editionId);
    if key in payload && payload[key].Record? {
      var raw := payload[key].record;
      RelationIdsExactly(raw.files);
      TextsExactly(raw.texts, edition.texts);
    }
  }

  /** No accepted file contradicts the row it was looked up for. */
  lemma AcceptedFileAgreesWithRow(payload: Payload<RawFile>, expected: Expectation)
    requires FindFile(payload, expected).Some?
    ensures var file := FindFile(payload, expected).value;
      && IsMd5(file.md5) && file.md5 == expected.md5
      && file.fileId >= 1
      && Print(file.fileId) in payload && payload[Print(file.fileId)].Record?
      && payload[Print(file.fileId)].record.md5 == expected.md5
      && (expected.fileId.Some? ==> file.fileId == expected.fileId.value)
      && (expected.extension.Some? && file.extension.Some? ==> file.extension == expected.extension)
      && (expected.editionId.Some? ==> file.editionId == expected.editionId)
      && (expected.editionId != Some(0) ==> file.editionId != Some(0))
  {
    var key := FileKeyOf(payload, expected).value;
    PrintParse(key);
  }

  /** A row without a file id is looked up by its MD5: it is accepted exactly when one
      record carries the MD5 and would be accepted under its own id. */
  lemma LookupByMd5IsLookupById(reply: Reply<RawFile>, expected: Expectation)
    requires expected.fileId.None?
    ensures ParseFile(reply, expected).Some? <==>
      exists id: nat :: Carriers(reply.records, expected.md5) == {Print(id)}
        && ParseFile(reply, expected.(fileId := Some(id))).Some?
    ensures forall id: nat :: Carriers(reply.records, expected.md5) == {Print(id)} ==>
      ParseFile(reply, expected) == ParseFile(reply, expected.(fileId := Some(id)))
  {
    forall id: nat | Carriers(reply.records, expected.md5) == {Print(id)}
      ensures ParseFile(reply, expected) == ParseFile(reply, expected.(fileId := Some(id)))
    {
      assert Print(id) in Carriers(reply.records, expected.md5);
      assert TheOnly(Carriers(reply.records, expected.md5)) == Print(id);
      ParsePrint(id);
    }
    if ParseFile(reply, expected).Some? {
      var key := FileKeyOf(reply.records, expected).value;
      OneMember(Carriers(reply.records, expected.md5));
      PrintParse(key);
      assert Carriers(reply.records, expected.md5) == {Print(Parse(key))};
    }
  }

  /** A file accepted for a discovered row is accepted by the stateless form too, when
      one record carries its MD5, and every field agrees except perhaps the edition. */
  lemma StatelessResolveAgrees(reply: Reply<RawFile>, expected: Expectation)
    requires ParseFile(reply, expected).Some?
    requires |Carriers(reply.records, expected.md5)| == 1
    ensures ParseFileByMd5(reply, expected.md5).Some?
    ensures ParseFileByMd5(reply, expected.md5).value.(editionId := None)
         == ParseFile(reply, expected).value.(editionId := None)
    ensures expected.editionId.None? ==> ParseFileByMd5(reply, expected.md5) == ParseFile(reply, expected)
  {
    var key := FileKeyOf(reply.records, expected).value;
    assert key in Carriers(reply.records, expected.md5);
    OneMember(Carriers(reply.records, expected.md5));
  }

  /** When the row names an edition the stateless form agrees on it exactly when that
      is the smallest edition the record lists. */
  lemma StatelessEditionAgreesExactly(reply: Reply<RawFile>, expected: Expectation, edition: nat)
    requires ParseFile(reply, expected).Some? && expected.editionId == Some(edition)
    requires |Carriers(reply.records, expected.md5)| == 1
    ensures ParseFileByMd5(reply, expected.md5).Some?
    ensures ParseFileByMd5(reply, expected.md5) == ParseFile(reply, expected) <==>
      exists k :: k in reply.records && reply.records[k].Record? && reply.records[k].record.md5 == expected.md5
        && RelationIds(reply.records[k].record.editions).Some?
        && IsMin(edition, RelationIds(reply.records[k].record.editions).value)
  {
    StatelessResolveAgrees(reply, expected);
    var key := FileKeyOf(reply.records, expected).value;
    assert key in Carriers(reply.records, expected.md5);
    OneMember(Carriers(reply.records, expected.md5));
    forall k | k in reply.records && reply.records[k].Record? && reply.records[k].record.md5 == expected.md5
      ensures k == key
    {
      assert k in Carriers(reply.records, expected.md5);
    }
    var ids := RelationIds(reply.records[key].record.editions).value;
    if ids != {} && IsMin(edition, ids) {
      assert Min(ids) == edition;
    }
  }
}
