# Pullbox direct providers: a verified model

A Dafny model of the stateful algorithms behind the Pullbox direct providers, with
proofs of what they keep over every input, every run and every interleaving. It covers
the gate in front of the browser resolver, the bounded cache and the metadata enricher
built on it, the LibGen health probes, search, catalog and size parsers, the GetComics
page parser, identifiers and search, issue numbers, collection titles, and Anna's
Archive candidates and download routes.

`dafny verify dfyconfig.toml` checks the whole project.

## How it is organised

| file | what it models |
|---|---|
| `Results.dfy`, `Sequences.dfy`, `OrderedDicts.dfy`, `Strings.dfy`, `Decimals.dfy`, `IntegerTexts.dfy`, `Utf8.dfy` | option and result values, filtering and first occurrences, an insertion-ordered dictionary, case and stripping of texts, decimal text, integers as `int()` reads them, UTF-8 |
| `ResolverGate.dfy` | the resolver's concurrency limit and circuit breaker, one lock section per step |
| `ResolverProtocol.dfy` | any number of callers following the enter, record, leave order, on a monotone clock |
| `TtlCache.dfy`, `CacheHistory.dfy` | the least-recently-used cache with two lifetimes, and what a run of calls makes of it |
| `LibGenMetadata.dfy` | validation of keyed file and edition records |
| `LibGenEnricher.dfy` | cached single and batched enrichment over a source of fixed contents |
| `LibGenSearch.dfy` | cached search of one origin, failover between origins, stateless resolution |
| `LibGenTable.dfy`, `LibGenRecords.dfy`, `LibGenSize.dfy` | the event-driven catalog parser, the records of its rows, displayed sizes |
| `HealthProbes.dfy` | timed probes that close their session within a budget |
| `GetComicsDocument.dfy`, `GetComicsBlocks.dfy` | the event-driven page parser: element stack, links, release groups; its text blocks and milestones read from the events and the tree |
| `GetComicsIdentity.dfy` | base64url identifiers (section 5 of RFC 4648) and their lenient decoder |
| `GetComicsSearch.dfy` | one page's candidates; the queries, deduplication and ordering of a search |
| `IssueNumbers.dfy` | issue normalization and range expansion |
| `CollectionTitles.dfy`, `CollectionFragments.dfy` | the cursor scanner and its grammar; search fragments |
| `AnnaCatalog.dfy` | catalog candidates and fast-download routes |

Objects whose methods update fields are classes, and loops are loops; each method is
proved equal to a function of its inputs or of the old state, and the results are stated
about those functions. Concurrent parts are transition systems whose steps are the
stretches between two suspension points, with invariants proved over every run.

## Properties that hold on a condition

Where the code meets a promise only on a condition, the condition is proved exact or a
concrete counterexample is proved beside it.

- A half-open circuit can hold several callers: late ones admitted while it was closed.
  Exclusivity is therefore stated from the admission of a probe
  (`ResolverProtocol.HalfOpenKeepsLateCallers`, `ResolverProtocol.ProbeIsExclusive`).
- The file cache key prints 0 and absence alike, so a row whose size and tolerance are both
  0 shares a key with one that shows no size (`LibGenEnricher.ZeroSizeSharesAKey`). Such a
  cell exists: "0.0000 KB" (`LibGenSize.FourZerosShowNothing`), and such cells are exactly
  those whose number and half whose last digit round to nothing
  (`LibGenSize.NothingShownExactly`). Enrichment is proved for every family of parsed rows in
  which no key has two sizes, and any other family has a source on which the cache is wrong
  (`LibGenEnricher.AmbiguityBreaksCoherence`). All rows without such a cell form one family
  (`LibGenEnricher.SoundRowsAreUnambiguous`), and so do the rows of one page, whatever they
  show (`LibGenRecords.PageIsUnambiguous`).
- A second cancellation during one session close leaves a running close task that nobody
  holds (`HealthProbes.SecondCancellationLosesTheTask`); up to one cancellation no task is lost.
- A metadata reply over 512 KiB is rejected whole, so a batch can lose rows that are accepted one
  by one, and remember them as absent (`LibGenEnricher.OverweightBatchLosesRows`). A batched verdict
  equals the single one exactly when the bound treats both replies alike or the record is rejected
  anyway (`LibGenMetadata.BatchedFileAgrees`, `LibGenMetadata.BatchedEditionAgrees`). Enrichment is
  therefore proved twice: answers may get lost but are never another's for every source, and
  nothing is lost when the batches agree.
- Normalizing an issue twice changes "007.0" again and makes "A.B" unreadable
  (`IssueNumbers.DottedIssueTexts`); the exact condition for any text is
  `IssueNumbers.NormalizeIdempotentExactly`. Texts without a dot are always stable
  (`IssueNumbers.IntegerIssuesAreStable`). For the same reason a range covers "5.0" but not
  "05.0" (`IssueNumbers.RangeCoverageIsExact`).
- A GetComics page whose path contains "//" gets an identifier that does not resolve
  (`GetComicsIdentity.OnlyDoubleSlashesAreLost`; "/a//b" in `GetComicsIdentity.LostIdentifiers`).
- A candidate identifier that is not ASCII fails with an uncaught error rather than "not
  found" (`GetComicsIdentity.OnlyNonAsciiEscapes`; an example in `GetComicsIdentity.LostIdentifiers`).
- An issue number the normalizer cannot read fails a GetComics search as soon as some
  query finds a candidate (`GetComicsSearch.UnreadableIssueFailsExactly`). "Annual" is one;
  "-1" is read (`GetComicsSearch.AnnualIsUnreadable`).
- A collection fragment is a fixed point exactly when the subtitle does not itself begin
  with a separator (`CollectionFragments.FragmentIsFixedExactly`). "Vol 1: - x" needs two
  passes (`CollectionFragments.SeparatorsTakeTwoPasses`).
- An unreadable catalog row is isolated only on a page with a supported row
  (`LibGenRecords.UnreadableRowIsIsolated`; a page that one row hides in
  `LibGenRecords.UnsupportedRowHidesThePage`).
- Enrichment ignores an edition whose record is rejected, resolution fails on it
  (`LibGenSearch.ResolveAgreesWithEnrichment`).
- Anna's catalog merge returns everything for a limit of 0 (`AnnaCatalog.CandidatesFromCatalog`).
- An anchor that contains another anchor is never recorded by the GetComics parser
  (`GetComicsDocument.ParsingReadsTheTree` names the innermost anchors).

## Model

| member | source | states |
|---|---|---|
| ResolverProtocol.GateIsAFunctionOfHistory | packages/provider_contract/src/pullbox_provider_contract/resolver.py:115-153 | in every reachable state each verdict, the failure count, the state, `opened_at` and the occupancy are what the history of admissions, successes, departures and failures says; at most `max_concurrency` callers are inside |
| ResolverProtocol.ProbeIsExclusive | packages/provider_contract/src/pullbox_provider_contract/resolver.py:115-140 | after the admission of a half-open probe nobody is admitted before that probe succeeds or leaves, whatever late callers record and however often the cooldown elapses |
| ResolverProtocol.PendingProbeIsAlone | packages/provider_contract/src/pullbox_provider_contract/resolver.py:127-135 | a pending probe is the only caller inside and every arrival would be refused |
| ResolverProtocol.AdmissionsAreAccountedFor | packages/provider_contract/src/pullbox_provider_contract/resolver.py:291-314 | every admitted caller is inside, owes a failure, recorded one, left uncounted or left after success |
| ResolverProtocol.AdmissionsBeforeFirstOpening | packages/provider_contract/src/pullbox_provider_contract/resolver.py:116-153 | without successes and before the first opening, counted admissions never exceed `threshold - 1 + max_concurrency` |
| ResolverProtocol.DrainedGateAdmits | packages/provider_contract/src/pullbox_provider_contract/resolver.py:117-135 | once slots are empty and the cooldown since the last failure has passed, the next caller is admitted |
| ResolverProtocol.NeverWedged | packages/provider_contract/src/pullbox_provider_contract/resolver.py:115-153 | from every reachable state some continuation without any success admits a given new caller |
| ResolverProtocol.HalfOpenKeepsLateCallers | packages/provider_contract/src/pullbox_provider_contract/resolver.py:118-129 | a reachable state is half open with two callers inside, one of which can close the circuit |
| ResolverGate.ProviderResolverRuntime.Create | packages/provider_contract/src/pullbox_provider_contract/resolver.py:89-109 | construction fails exactly outside the bounds on concurrency, threshold and cooldown |
| ResolverGate.ProviderResolverRuntime.EnterSlot | packages/provider_contract/src/pullbox_provider_contract/resolver.py:116-135 | the new state and verdict of one entry, including the switch to half open before the busy check |
| ResolverGate.ProviderResolverRuntime.LeaveSlot | packages/provider_contract/src/pullbox_provider_contract/resolver.py:138-140 | leaving changes only the number of callers inside |
| ResolverGate.ProviderResolverRuntime.OnSuccess | packages/provider_contract/src/pullbox_provider_contract/resolver.py:142-146 | success closes the circuit and forgets all failures, leaving the slots alone |
| ResolverGate.ProviderResolverRuntime.OnFailure | packages/provider_contract/src/pullbox_provider_contract/resolver.py:148-153 | a failure is counted, and opens the circuit now when the threshold is reached |
| CacheHistory.HitIsTheLatestSet | providers/libgen/src/pullbox_provider_libgen/cache.py:42-57 | over any run, a hit returns the value of the latest set of the key, which has not outlived its positive or negative lifetime |
| CacheHistory.AliveKeysAreRetained | providers/libgen/src/pullbox_provider_libgen/cache.py:42-57 | with a monotone clock, a key whose latest set is alive hits unless at least `max_entries` other keys were touched since its own last touch |
| CacheHistory.ReplayGoneForAReason | providers/libgen/src/pullbox_provider_libgen/cache.py:42-57 | a set key that is no longer stored was outlived or pushed out by `max_entries` others |
| CacheHistory.OrderIsByLastTouch | providers/libgen/src/pullbox_provider_libgen/cache.py:49-57 | the cache never outgrows its bound and keeps its keys in the order they were last touched |
| TtlCache.BoundedTTLCache.Create | providers/libgen/src/pullbox_provider_libgen/cache.py:26-40 | construction fails exactly for a bound or lifetime that is not positive |
| TtlCache.BoundedTTLCache.Get | providers/libgen/src/pullbox_provider_libgen/cache.py:42-50 | the lookup and the new entries of one get: an expired key is deleted, a live one moves last |
| TtlCache.BoundedTTLCache.Set | providers/libgen/src/pullbox_provider_libgen/cache.py:52-57 | the new entries of one set: the key last with its lifetime, the oldest keys popped down to the bound |
| TtlCache.SetTable | providers/libgen/src/pullbox_provider_libgen/cache.py:52-57 | a set leaves its own entry and otherwise only old entries unchanged |
| TtlCache.SetKeepsBounds | providers/libgen/src/pullbox_provider_libgen/cache.py:52-57 | a set keeps the dictionary well formed and within `max_entries` |
| TtlCache.GetKeepsBounds | providers/libgen/src/pullbox_provider_libgen/cache.py:42-50 | a get keeps the dictionary well formed and within `max_entries` |
| LibGenMetadata.CollectRelationIds | providers/libgen/src/pullbox_provider_libgen/metadata.py:550-560 | the set of identifiers related by a field, or an error when one of them is malformed |
| LibGenMetadata.LookupByMd5IsLookupById | providers/libgen/src/pullbox_provider_libgen/metadata.py:280-288 | lookup by MD5 succeeds exactly when one record carries it, and then equals lookup by that record's id |
| LibGenMetadata.AcceptedFileAgreesWithRow | providers/libgen/src/pullbox_provider_libgen/metadata.py:290-331 | an accepted file agrees with the discovered row in MD5, id, extension and edition |
| LibGenMetadata.FileIsFoundExactly | providers/libgen/src/pullbox_provider_libgen/metadata.py:265-331 | a row finds some metadata exactly when the record under its own id, or the only one with its MD5, is visible, unbroken, within the shown size and tolerance, of the shown extension and of the named edition if it lists any; every field is then the record's own and an unnamed edition the smallest it lists |
| LibGenMetadata.EditionIsFoundExactly | providers/libgen/src/pullbox_provider_libgen/metadata.py:334-371 | an edition is found exactly when its record is visible, lists the file if it lists any, and has a year from 1800 to 2200 if one; its texts, year and normalized issue are the record's own |
| LibGenMetadata.BatchedFileAgrees | providers/libgen/src/pullbox_provider_libgen/metadata.py:592-600 | a reply to a batch of ids gives the verdict on a file that a reply for its MD5 alone gives exactly when both replies are within the size bound or neither is, or the file is rejected anyway |
| LibGenMetadata.BatchedEditionAgrees | providers/libgen/src/pullbox_provider_libgen/metadata.py:613-621 | a reply to a batch of edition ids gives the verdict that a reply for one gives on the same condition |
| LibGenMetadata.StatelessResolveAgrees | providers/libgen/src/pullbox_provider_libgen/metadata.py:250-331 | a file accepted for a row is accepted from its MD5 alone with every field equal except perhaps the edition, when one record carries the MD5 |
| LibGenMetadata.StatelessEditionAgreesExactly | providers/libgen/src/pullbox_provider_libgen/metadata.py:312-320 | when the row names an edition the stateless form agrees exactly if it is the smallest the record lists |
| LibGenEnricher.LibGenMetadataEnricher.EnrichMany | providers/libgen/src/pullbox_provider_libgen/metadata.py:118-235 | for any clock, capacity, coherent cache and unambiguous family of rows, with other tasks using the cache during every fetch: whatever the replies weigh, every candidate carries its own row's answers, in input order, and the cache stays coherent; when batches agree with single replies about the size bound the result is exactly the rows' own answers; a batch is refused exactly beyond 100 distinct uncached ids |
| LibGenEnricher.LibGenMetadataEnricher.Enrich | providers/libgen/src/pullbox_provider_libgen/metadata.py:78-116 | single enrichment returns what fetching and parsing now would give, whatever the cache holds; where oversized batches may have been remembered as absences, never an answer that is not the row's own |
| LibGenEnricher.EnrichedExactly | providers/libgen/src/pullbox_provider_libgen/metadata.py:78-116 | a row's answer, told by the source's records alone: the file they describe for it, with the edition they describe for that file, replies over 512 KiB counting for nothing |
| LibGenEnricher.EnrichedAllExactly | providers/libgen/src/pullbox_provider_libgen/metadata.py:231-235 | the rows' own answers are every candidate described for one of them, in the order of the rows |
| LibGenEnricher.LibGenMetadataEnricher.LookUpFiles | providers/libgen/src/pullbox_provider_libgen/metadata.py:137-147 | cached answers are right, and every row is known, pending or to be enriched alone; a row with an id that is not stored is pending |
| LibGenEnricher.LibGenMetadataEnricher.FetchFiles | providers/libgen/src/pullbox_provider_libgen/metadata.py:149-165 | the batched file reply completes the table of right answers; the batch is refused exactly beyond 100 distinct file ids |
| LibGenEnricher.LibGenMetadataEnricher.LookUpEditions | providers/libgen/src/pullbox_provider_libgen/metadata.py:167-179 | every file that names an edition has its edition known or pending |
| LibGenEnricher.LibGenMetadataEnricher.FetchEditions | providers/libgen/src/pullbox_provider_libgen/metadata.py:181-209 | the batched edition reply completes the edition table; the batch is refused exactly beyond 100 distinct edition ids |
| LibGenEnricher.LibGenMetadataEnricher.BuildCandidates | providers/libgen/src/pullbox_provider_libgen/metadata.py:211-224 | candidates are built exactly for the rows whose file is known and accepted |
| LibGenEnricher.LibGenMetadataEnricher.EnrichIndividually | providers/libgen/src/pullbox_provider_libgen/metadata.py:226-229 | rows without a file id are completed one at a time without disturbing the others |
| LibGenEnricher.OverweightBatchLosesRows | providers/libgen/src/pullbox_provider_libgen/metadata.py:472-475 | two rows that are accepted one by one are both rejected when their batched reply exceeds 512 KiB |
| LibGenEnricher.FileKeyDeterminesAnswer | providers/libgen/src/pullbox_provider_libgen/metadata.py:631-643 | two rows of an unambiguous family with one cache key have one answer, from any source, with and without the size bound |
| LibGenEnricher.SoundRowsAreUnambiguous | providers/libgen/src/pullbox_provider_libgen/metadata.py:631-643 | parsed rows whose size and tolerance come together and are not both 0 are such a family |
| LibGenEnricher.AmbiguityBreaksCoherence | providers/libgen/src/pullbox_provider_libgen/metadata.py:91-93 | when one key of a family has two sizes, some source makes a cached right answer to one row a wrong one to the other |
| LibGenEnricher.FileKeyIsFaithfulExactly | providers/libgen/src/pullbox_provider_libgen/metadata.py:631-643 | two parsed rows with one key have the same answer from every source exactly when their sizes are equal |
| LibGenEnricher.ZeroSizeSharesAKey | providers/libgen/src/pullbox_provider_libgen/metadata.py:639 | a row with size and tolerance 0 and one with no size share a key although some source answers them differently |
| LibGenEnricher.EditionKeyFields | providers/libgen/src/pullbox_provider_libgen/metadata.py:646-647 | an edition key determines its origin, edition and file |
| LibGenEnricher.SetFileKeepsCoherence | providers/libgen/src/pullbox_provider_libgen/metadata.py:91-93 | storing a right file answer keeps every entry right, through eviction |
| LibGenEnricher.SetEditionKeepsCoherence | providers/libgen/src/pullbox_provider_libgen/metadata.py:112-115 | storing a right edition answer keeps every entry right, through eviction |
| LibGenEnricher.BoundedIdentifiersFit | providers/libgen/src/pullbox_provider_libgen/metadata.py:624-628 | a batch of positive ids is refused exactly when it has more than 100 distinct ones, and otherwise asks for all of them |
| HealthProbes.ProbesEndInTime | providers/libgen/src/pullbox_provider_libgen/service.py:100-118 | every probe ends within 5 seconds of fetching and one second of closing, which no cancellation extends |
| HealthProbes.UnfinishedTasksAreHeldExactly | providers/libgen/src/pullbox_provider_libgen/service.py:93-118 | an ended probe's unfinished close task is cancelled and held exactly when fewer than two cancellations hit the close |
| HealthProbes.HeldTasksAreTheCancelledUnfinished | providers/libgen/src/pullbox_provider_libgen/service.py:86-97 | the detached set holds exactly the cancelled, unfinished close tasks once due callbacks have run |
| HealthProbes.ReportsAreTruthful | providers/libgen/src/pullbox_provider_libgen/service.py:289-309 | a status is reported exactly when no cancellation reached the close, the fetch neither was cancelled nor crashed, and the session closed cleanly or was given up; it is the fetch's own only after a clean close |
| HealthProbes.OutcomesAreExact | providers/libgen/src/pullbox_provider_libgen/service.py:86-118 | over any run, what an ended probe answers is fixed by the first step that ended its fetch, the cancellations since, how its close task ended and whether the close was given up: which status, a cancellation, or whose error |
| HealthProbes.TimersFireOnTime | providers/libgen/src/pullbox_provider_libgen/service.py:291-293 | a fetch times out 5 seconds after its probe began and a close is given up 1 second after it began, not earlier |
| HealthProbes.EveryProbeEnds | providers/libgen/src/pullbox_provider_libgen/service.py:289-309 | from every reachable state the timers alone end every probe |
| HealthProbes.TimeoutsEndEveryProbe | providers/libgen/src/pullbox_provider_libgen/service.py:104-117 | no timer is ever blocked: firing the due ones in order ends all probes |
| HealthProbes.SecondCancellationLosesTheTask | providers/libgen/src/pullbox_provider_libgen/service.py:108-114 | a second cancellation in one close leaves a running close task that is not held |
| LibGenSearch.LibGenProviderService.SearchOrigin | providers/libgen/src/pullbox_provider_libgen/service.py:460-511 | a cached search of one origin answers what the origin would answer now, whatever the cache holds, with other searches using the cache meanwhile |
| LibGenSearch.LibGenProviderService.Search | providers/libgen/src/pullbox_provider_libgen/service.py:340-370 | a search is the failover over its origins' own answers |
| LibGenSearch.LibGenProviderService.CollectQuery | providers/libgen/src/pullbox_provider_libgen/service.py:478-490 | the records collected from a page are its first occurrences by MD5 up to the limit, and none exactly for an empty page |
| LibGenSearch.FailoverPicksOne | providers/libgen/src/pullbox_provider_libgen/service.py:349-370 | the outcome is that of one origin: all before it failed in a skippable way, and it did not or was the last |
| LibGenSearch.FirstPageDecides | providers/libgen/src/pullbox_provider_libgen/service.py:492-506 | the first query with records decides the answer, and no later query is made |
| LibGenSearch.FallbackIsAskedExactly | providers/libgen/src/pullbox_provider_libgen/service.py:490-508 | the first exact query with records or an error decides; only when all are empty does the title query decide, unless it is blank or was asked |
| LibGenSearch.NothingFoundExactly | providers/libgen/src/pullbox_provider_libgen/service.py:507-509 | nothing is found exactly when every page of every query is empty |
| LibGenSearch.CacheKeyIsFaithful | providers/libgen/src/pullbox_provider_libgen/service.py:468 | a search key determines origin, limit and intent |
| LibGenSearch.SetKeepsCoherence | providers/libgen/src/pullbox_provider_libgen/service.py:496-508 | storing an answer, or an absence for an empty one, keeps every remembered answer right |
| LibGenSearch.OperationOrigins | providers/libgen/src/pullbox_provider_libgen/service.py:440-458 | the preferred origin comes first, followed by at most one validated alternate; a refused preferred origin is an error |
| LibGenSearch.AlternateIsAnother | providers/libgen/src/pullbox_provider_libgen/service.py:446-457 | the alternate is the first known origin that differs from the preferred one and validates, and missing only when none does |
| LibGenSearch.ResolveAgreesWithEnrichment | providers/libgen/src/pullbox_provider_libgen/service.py:513-554 | a record that was enriched and names no edition resolves to the same file and edition, or fails exactly when its edition record was rejected or the redirect fails |
| LibGenSearch.ResolvesExactly | providers/libgen/src/pullbox_provider_libgen/service.py:513-534 | an origin resolves an MD5 exactly to the file its records describe for that MD5 alone, with the edition they describe for it, at the end of its redirect |
| LibGenTable.CatalogParser.HandleStartTag | providers/libgen/src/pullbox_provider_libgen/parser.py:88-106 | the whole parser state after a start tag, including nested tables and open cells |
| LibGenTable.CatalogParser.HandleEndTag | providers/libgen/src/pullbox_provider_libgen/parser.py:108-129 | the whole parser state after an end tag, with the precedence of its branches |
| LibGenTable.CatalogParser.HandleData | providers/libgen/src/pullbox_provider_libgen/parser.py:131-143 | the whole parser state after text |
| LibGenTable.TableRoundTrip | providers/libgen/src/pullbox_provider_libgen/parser.py:77-143 | a page with one well-formed catalog table is read as exactly that table's rows, cells, links and primary and secondary text, whatever surrounds the table |
| LibGenTable.ReadsContent | providers/libgen/src/pullbox_provider_libgen/parser.py:103-118 | inside a cell any well-nested content adds exactly its texts, split by font elements, and its anchors |
| LibGenTable.AnyEventsAreConsistent | providers/libgen/src/pullbox_provider_libgen/parser.py:88-143 | for any events a link is open only in a cell, a cell only in a row, and each cell's text is an order-preserving merge of its primary and secondary parts |
| LibGenTable.CatalogCountsItsTables | providers/libgen/src/pullbox_provider_libgen/parser.py:90-129 | for any events the catalog ends at the end tag of its own table, however tables nest |
| LibGenTable.CellColspanExactly | providers/libgen/src/pullbox_provider_libgen/parser.py:238-245 | a cell is as wide as its attribute says for a number from 1 to 9 with blanks around it, one wide without a value, and of no width otherwise |
| LibGenRecords.ParseSearchRows | providers/libgen/src/pullbox_provider_libgen/parser.py:155-173 | the records of a page, or a layout error |
| LibGenRecords.RowIsReadExactly | providers/libgen/src/pullbox_provider_libgen/parser.py:176-228 | a row gives a record exactly when its cells show it: one of the two layouts, the first download link with an MD5, the first positive ids, both titles, the size, and a supported extension or none |
| LibGenRecords.RecordsExactly | providers/libgen/src/pullbox_provider_libgen/parser.py:162-172 | the records of a page are exactly those its rows are the first to show |
| LibGenRecords.PageIsRefusedExactly | providers/libgen/src/pullbox_provider_libgen/parser.py:155-160 | a page is refused exactly without the table, without a header naming the six columns, or with rows none of which has a supported layout |
| LibGenRecords.RecordsSuitEnrichment | providers/libgen/src/pullbox_provider_libgen/parser.py:162-172 | a page's records have distinct MD5 sums, which batched enrichment requires |
| LibGenRecords.RecordsAreParsed | providers/libgen/src/pullbox_provider_libgen/parser.py:176-228 | every record a row shows is a parsed row of its origin, and enters the sound family exactly unless its size cell reads as 0 with tolerance 0 |
| LibGenRecords.PageIsUnambiguous | providers/libgen/src/pullbox_provider_libgen/parser.py:162-172 | the rows of one page never share a cache key with two sizes |
| LibGenRecords.UnreadableRowIsIsolated | providers/libgen/src/pullbox_provider_libgen/parser.py:158-171 | adding an unreadable row anywhere changes nothing exactly when the page has a supported row, or the row is supported just in case the page has none |
| LibGenRecords.UnsupportedRowHidesThePage | providers/libgen/src/pullbox_provider_libgen/parser.py:155-160 | a page of a header alone is empty, and one unsupported row makes it unreadable |
| LibGenRecords.BadRowRecords | providers/libgen/src/pullbox_provider_libgen/parser.py:164-170 | an unreadable row contributes no record and disturbs no other |
| LibGenSize.RoundingIsTolerated | providers/libgen/src/pullbox_provider_libgen/parser.py:362-379 | a size displayed by any rounding to nearest is within the tolerance |
| LibGenSize.ToleratedIsClose | providers/libgen/src/pullbox_provider_libgen/parser.py:362-379 | a tolerated size is off by at most half a last digit and one byte |
| LibGenSize.MetadataSizeCheck | providers/libgen/src/pullbox_provider_libgen/metadata.py:301-307 | the metadata size check passes for every size the cell may stand for, and only for sizes close to it |
| LibGenSize.SizeTextIsRead | providers/libgen/src/pullbox_provider_libgen/parser.py:362-379 | a number, optional fraction, spaces and unit in any case are read as what they show |
| LibGenSize.ReadSizesHaveTheShape | providers/libgen/src/pullbox_provider_libgen/parser.py:362-371 | no other text is read as a size |
| LibGenSize.SizeOfExactly | providers/libgen/src/pullbox_provider_libgen/parser.py:370-379 | the bytes are nearest to the displayed units and the tolerance nearest to half the last digit, halves rounded up |
| LibGenSize.UnitsAreBinary | providers/libgen/src/pullbox_provider_libgen/parser.py:369 | the units are KB, MB and GB in any case, by powers of 1024 |
| LibGenSize.NothingShownExactly | providers/libgen/src/pullbox_provider_libgen/parser.py:372-379 | size and tolerance are both 0 exactly when the number and half its last digit round to nothing |
| LibGenSize.FourZerosShowNothing | providers/libgen/src/pullbox_provider_libgen/parser.py:362-379 | "0.0000 KB" reads as 0 bytes with tolerance 0, "0 KB" as 0 bytes with tolerance 512 |
| GetComicsDocument.DocumentParser.HandleStartTag | providers/getcomics/src/pullbox_provider_getcomics/parser.py:81-92 | the whole parser state after a start tag |
| GetComicsDocument.DocumentParser.HandleEndTag | providers/getcomics/src/pullbox_provider_getcomics/parser.py:94-121 | the whole parser state after an end tag: link, block, then contexts |
| GetComicsDocument.DocumentParser.FinishLink | providers/getcomics/src/pullbox_provider_getcomics/parser.py:95-109 | closing a link records it, and a control joins the active group or stands alone |
| GetComicsDocument.DocumentParser.FinishBlock | providers/getcomics/src/pullbox_provider_getcomics/parser.py:110-117 | closing a block of release metadata extends the active group until it holds a link, then starts another |
| GetComicsDocument.DocumentParser.CloseContexts | providers/getcomics/src/pullbox_provider_getcomics/parser.py:118-121 | the search from the top of the stack closes the innermost element with the tag |
| GetComicsDocument.DocumentParser.HandleData | providers/getcomics/src/pullbox_provider_getcomics/parser.py:123-131 | the whole parser state after text |
| GetComicsDocument.ParsingReadsTheTree | providers/getcomics/src/pullbox_provider_getcomics/parser.py:81-131 | for any well-nested page, void elements written with or without a closing slash, every anchor without an anchor inside it is recorded once, in closing order, with the classes of itself and its ancestors, and the stack ends empty |
| GetComicsDocument.ReadsForest | providers/getcomics/src/pullbox_provider_getcomics/parser.py:81-131 | the same for any content in any reachable parser state, with texts and classes |
| GetComicsDocument.AnyEventsOpenNoVoid | providers/getcomics/src/pullbox_provider_getcomics/parser.py:81-131 | no events, well nested or not, ever leave a void element open |
| GetComicsDocument.GroupsSplitTheMilestones | providers/getcomics/src/pullbox_provider_getcomics/parser.py:94-117 | for any events, well nested or not, reading the groups back gives the page's sequence of metadata blocks and controls, and groups end only as the rules say |
| GetComicsDocument.SplitIsUnique | providers/getcomics/src/pullbox_provider_getcomics/parser.py:106-115 | that sequence determines the groups: no other grouping fits |
| GetComicsDocument.GroupsHoldTheControls | providers/getcomics/src/pullbox_provider_getcomics/parser.py:106-108 | for any events the links of all groups together are exactly the `aio-` links in document order |
| GetComicsBlocks.MetadataIsTheBlocks | providers/getcomics/src/pullbox_provider_getcomics/parser.py:81-131 | for any events, well nested or not, the release metadata are the texts between each heading or paragraph tag and the first end tag of its name, all of each, in order, as far as they describe a release |
| GetComicsBlocks.BlockEmitsItsText | providers/getcomics/src/pullbox_provider_getcomics/parser.py:88-117 | one block, whatever stands inside, gives the controls inside it and then its own text |
| GetComicsBlocks.ParsingReadsTheMilestones | providers/getcomics/src/pullbox_provider_getcomics/parser.py:81-131 | the milestones of a well-nested page are a function of its tree: innermost control anchors and outermost blocks with all their text, in the order in which the elements close, as long as no block stands inside one of its own name |
| GetComicsIdentity.IdentityRoundTrip | providers/getcomics/src/pullbox_provider_getcomics/service.py:319-331 | resolving a printed identifier gives its page back exactly when the path is one the resolver serves |
| GetComicsIdentity.OnlyDoubleSlashesAreLost | providers/getcomics/src/pullbox_provider_getcomics/service.py:329-331 | for a path taken from a page address only a double slash keeps its candidate from resolving |
| GetComicsIdentity.PrintableExactly | providers/getcomics/src/pullbox_provider_getcomics/parser.py:419-424 | an identifier is printed exactly for a path of 1 to 360 bytes, and fits 500 characters |
| GetComicsIdentity.IdentityInjective | providers/getcomics/src/pullbox_provider_getcomics/parser.py:419-424 | candidates with one identifier are one page |
| GetComicsIdentity.DecodeEncode | providers/getcomics/src/pullbox_provider_getcomics/service.py:325-326 | padding computed as `-len % 4` restores what was stripped |
| GetComicsIdentity.EncodedLength | providers/getcomics/src/pullbox_provider_getcomics/parser.py:421-422 | unpadded base64url uses four symbols for three bytes, rounded up |
| GetComicsIdentity.SymbolsAreUrlSafe | providers/getcomics/src/pullbox_provider_getcomics/parser.py:421 | the alphabet is that of section 5 of RFC 4648 |
| GetComicsIdentity.OtherCharactersAreSkipped | providers/getcomics/src/pullbox_provider_getcomics/service.py:326 | a character outside both alphabets, anywhere in an identifier, is skipped |
| GetComicsIdentity.UnpaddedIsDecodedExactly | providers/getcomics/src/pullbox_provider_getcomics/service.py:325-326 | text without padding is decoded exactly when its symbols come in groups of four |
| GetComicsIdentity.ResolvedPageIsCanonical | providers/getcomics/src/pullbox_provider_getcomics/service.py:319-331 | an identifier that resolves at all names a page whose own identifier resolves to the same address |
| GetComicsIdentity.OnlyNonAsciiEscapes | providers/getcomics/src/pullbox_provider_getcomics/service.py:319-330 | resolution fails with an uncaught error instead of not found exactly for a prefixed identifier that is not ASCII |
| GetComicsIdentity.PagesInUtf8 | providers/getcomics/src/pullbox_provider_getcomics/service.py:319-331 | the round trip for UTF-8 itself, with an identifier for every path of 1 to 90 characters |
| GetComicsIdentity.LostIdentifiers | providers/getcomics/src/pullbox_provider_getcomics/service.py:324-330 | "/a//b" is listed but not found, and an accented identifier escapes the not-found answer |
| Utf8.DecodeEncode | providers/getcomics/src/pullbox_provider_getcomics/parser.py:421 | decoding undoes encoding a path |
| GetComicsIdentity.LenientIdentifiers | providers/getcomics/src/pullbox_provider_getcomics/service.py:326 | different identifiers resolve to one page: unused trailing bits are dropped and both alphabets are read |
| GetComicsSearch.ParseSearchPage | providers/getcomics/src/pullbox_provider_getcomics/parser.py:139-175 | a page's candidates: the first link to each path under a post title, or a layout error |
| GetComicsSearch.PageListsEachPathOnce | providers/getcomics/src/pullbox_provider_getcomics/parser.py:144-155 | the candidates of a page have distinct identifiers and distinct paths |
| GetComicsSearch.PageMissesNoPath | providers/getcomics/src/pullbox_provider_getcomics/parser.py:146-155 | every listed path has a candidate |
| GetComicsSearch.ListingFailsExactly | providers/getcomics/src/pullbox_provider_getcomics/parser.py:146-152 | a page is refused for a path exactly when some listed path is not printable |
| GetComicsSearch.PageIsRefusedExactly | providers/getcomics/src/pullbox_provider_getcomics/parser.py:139-152 | a page is refused exactly without a search title or for a release link whose path has no identifier |
| GetComicsSearch.ListingFollowsLinks | providers/getcomics/src/pullbox_provider_getcomics/parser.py:146-174 | candidates follow the release links one for one, each with its own path, identifier, title and evidence |
| GetComicsSearch.TreeToPage | providers/getcomics/src/pullbox_provider_getcomics/parser.py:139-175 | the candidates of a page's element tree are read from its innermost anchors |
| GetComicsSearch.AppendSearchCandidates | providers/getcomics/src/pullbox_provider_getcomics/service.py:102-120 | a page adds exactly its candidates not seen in any page before |
| GetComicsSearch.Search | providers/getcomics/src/pullbox_provider_getcomics/service.py:51-100 | the search issues the shortest prefix of exact then fallback queries after which it may stop and answers from the candidates found |
| GetComicsSearch.SearchFallbacks | providers/getcomics/src/pullbox_provider_getcomics/service.py:74-99 | fallback queries continue the same search, and a covering fallback comes before every exact result |
| GetComicsSearch.SearchIsDetermined | providers/getcomics/src/pullbox_provider_getcomics/service.py:51-100 | that description leaves nothing open: it fixes the number of queries and the result |
| GetComicsSearch.SearchStopsExactly | providers/getcomics/src/pullbox_provider_getcomics/service.py:64-99 | a search stops after the first query that shows a covering candidate, for a collection the first that fills the limit, and otherwise asks everything |
| GetComicsSearch.CoveringFirstIsTheStablePartition | providers/getcomics/src/pullbox_provider_getcomics/service.py:275-286 | the arrangement puts covering candidates first and keeps the order found within both parts, and is the only one that does |
| GetComicsSearch.StoppingEarlyLosesNothing | providers/getcomics/src/pullbox_provider_getcomics/service.py:71-72 | for a collection, stopping early equals running every query and truncating |
| GetComicsSearch.CoveringCandidateLeads | providers/getcomics/src/pullbox_provider_getcomics/service.py:275-286 | when any query would find a covering candidate, the first answer covers the request |
| GetComicsSearch.AnswersAreDistinct | providers/getcomics/src/pullbox_provider_getcomics/service.py:116-120 | answers have distinct identifiers, respect the limit and come from the pages fetched |
| GetComicsSearch.UnreadableIssueFailsExactly | providers/getcomics/src/pullbox_provider_getcomics/service.py:289-294 | an issue number that normalization refuses fails the search exactly when some query finds a candidate |
| GetComicsSearch.AnnualIsUnreadable | providers/getcomics/src/pullbox_provider_getcomics/service.py:289-294 | a search for "Annual" fails on its first candidate, one for "-1" returns it |
| GetComicsSearch.PackCoversItsRange | providers/getcomics/src/pullbox_provider_getcomics/service.py:289-304 | a pack covers an issue exactly when its range is expanded and holds the issue, some known title folds to its own, and no year is asked or shown or the shown one is asked, with any zero padding unless a zero fraction is written |
| IssueNumbers.NormalizeKeepsMeaning | packages/provider_contract/src/pullbox_provider_contract/comic_parser.py:102-109 | normalization keeps the number and the folded suffix |
| IssueNumbers.NormalizeDecidesSameIssue | packages/provider_contract/src/pullbox_provider_contract/comic_parser.py:102-109 | two issue texts normalize alike exactly when they denote one issue and keep as many integer digits |
| IssueNumbers.NormalizeIdempotentExactly | packages/provider_contract/src/pullbox_provider_contract/comic_parser.py:102-109 | normalizing any readable text twice changes nothing exactly when it has no dot, or what is kept of it is lower-case letters behind a dotted text that ends in neither zero nor dot, or behind an integer as `str()` prints it |
| IssueNumbers.NumberIsStableExactly | packages/provider_contract/src/pullbox_provider_contract/comic_parser.py:102-109 | for digits with a fraction and letters: exactly when the digits kept are canonical or a fraction stays |
| IssueNumbers.DottedIssueTexts | packages/provider_contract/src/pullbox_provider_contract/comic_parser.py:102-109 | "A.B" becomes "Ab", which is unreadable; "-1.0" becomes "-1", which stays |
| IssueNumbers.LeadingZerosNeedTwoPasses | packages/provider_contract/src/pullbox_provider_contract/comic_parser.py:105-108 | "007.0" becomes "007" and only then "7" |
| IssueNumbers.IntegerIssuesNormalize | packages/provider_contract/src/pullbox_provider_contract/comic_parser.py:102-109 | a text without a dot normalizes to its integer and folded letters, with any sign, blanks and underscores `int()` allows |
| IssueNumbers.ReadableIssuesAreIntegers | packages/provider_contract/src/pullbox_provider_contract/comic_parser.py:108 | no other text without a dot is readable |
| IssueNumbers.IntegerIssuesAreStable | packages/provider_contract/src/pullbox_provider_contract/comic_parser.py:102-109 | without a dot, normalizing twice changes nothing |
| IntegerTexts.ReadPrintInt | packages/provider_contract/src/pullbox_provider_contract/comic_parser.py:108 | `int()` undoes `str()` |
| IntegerTexts.PrintReadExactly | packages/provider_contract/src/pullbox_provider_contract/comic_parser.py:108 | `str()` undoes `int()` exactly on the canonical integer texts |
| IssueNumbers.RangeCoverageIsExact | packages/provider_contract/src/pullbox_provider_contract/comic_parser.py:75-84 | a range covers an issue exactly when its ends are whole, in order and less than 100 apart, the issue lies between them without a suffix, and a fraction, if written, is zero behind unpadded digits |
| IssueNumbers.RangeCoversIntegers | packages/provider_contract/src/pullbox_provider_contract/comic_parser.py:75-84 | a range covers an integer text, however signed, grouped or spaced, exactly when no letters follow and the integer lies between the ends |
| IssueNumbers.NumbersInOrder | packages/provider_contract/src/pullbox_provider_contract/comic_parser.py:84 | the expansion lists each issue once, in order |
| CollectionTitles.CollectionPrefixParts | packages/provider_contract/src/pullbox_provider_contract/search_terms.py:40-75 | the scan of a title by loops that only advance a cursor |
| CollectionTitles.Advance | packages/provider_contract/src/pullbox_provider_contract/search_terms.py:53-54 | one loop stops exactly where its run of characters ends |
| CollectionTitles.ScannerEqualsGrammar | packages/provider_contract/src/pullbox_provider_contract/search_terms.py:40-75 | the scanner accepts exactly the titles of the shape label, dot, spaces, hash, digits, fraction, spaces, separator, spaces, rest, and reads maximal shapes back as they are |
| CollectionTitles.ShapesAreScanned | packages/provider_contract/src/pullbox_provider_contract/search_terms.py:40-75 | completeness of the scanner for the grammar |
| CollectionTitles.ScannedTitlesHaveTheShape | packages/provider_contract/src/pullbox_provider_contract/search_terms.py:40-75 | soundness: an accepted title has a maximal shape with the parts returned |
| CollectionFragments.SpellingsAgree | packages/provider_contract/src/pullbox_provider_contract/search_terms.py:78-104 | every spelling of a numbered title gives "Vol", "Book" or "Part", its number and its subtitle, and nothing exactly without a subtitle |
| CollectionFragments.FragmentIsFixedExactly | packages/provider_contract/src/pullbox_provider_contract/search_terms.py:78-95 | a fragment is its own fragment exactly without a number prefix or when the subtitle begins with no separator |
| CollectionFragments.SeparatorsTakeTwoPasses | packages/provider_contract/src/pullbox_provider_contract/search_terms.py:78-95 | "Vol 1: - x" becomes "Vol 1 - x" and then "Vol 1 x" |
| CollectionFragments.OneWordTitles | packages/provider_contract/src/pullbox_provider_contract/search_terms.py:78-88 | a one-word title is kept as it is unless it only names a kind of book |
| CollectionFragments.FragmentKeepsNumber | packages/provider_contract/src/pullbox_provider_contract/search_terms.py:78-104 | a fragment always keeps the title's number |
| CollectionFragments.NumberOnlyHasNoTail | packages/provider_contract/src/pullbox_provider_contract/search_terms.py:12-15 | a title that is only a number has nothing after it |
| CollectionFragments.NumberedIsNotGeneric | packages/provider_contract/src/pullbox_provider_contract/search_terms.py:83-84 | a title with a number is never a generic one |
| CollectionFragments.CollapseIsCollapsed | packages/provider_contract/src/pullbox_provider_contract/search_terms.py:80 | whitespace collapse leaves single inner blanks, and leaves collapsed text alone |
| AnnaCatalog.CandidatesFromCatalog | providers/annas_archive/src/pullbox_provider_annas_archive/service.py:339-377 | the merge is the first `limit` best copies, and all of them for a limit of 0 |
| AnnaCatalog.BestCopyIsBest | providers/annas_archive/src/pullbox_provider_annas_archive/service.py:347-357 | each kept copy stands at a catalog place no other copy of its MD5 beats, by rank first and by order within a rank |
| AnnaCatalog.EveryMd5HasOneCopy | providers/annas_archive/src/pullbox_provider_annas_archive/service.py:346-357 | every MD5 with a valid identity is kept, exactly once |
| AnnaCatalog.SortedIsTheStableSort | providers/annas_archive/src/pullbox_provider_annas_archive/service.py:347 | the order used is the only stable sort by rank |
| AnnaCatalog.Md5OfExactly | providers/annas_archive/src/pullbox_provider_annas_archive/service.py:349-356 | a candidate has an MD5 exactly when its fingerprint and its identifier both carry it |
| AnnaCatalog.MobileExactly | providers/annas_archive/src/pullbox_provider_annas_archive/service.py:380-382 | a file ranks behind exactly when its title says digital-mobile somewhere, in any case |
| AnnaCatalog.BorrowedCandidate | providers/annas_archive/src/pullbox_provider_annas_archive/service.py:359-374 | a borrowed candidate resolves by its new identifier, points to its page on the domain, claims no fingerprint, and loses 0.05 confidence exactly when it is mobile, never below 0 |
| AnnaCatalog.Resolve | providers/annas_archive/src/pullbox_provider_annas_archive/service.py:131-190 | the routes, errors and mirrors of one resolution |
| AnnaCatalog.ResolvesExactly | providers/annas_archive/src/pullbox_provider_annas_archive/service.py:156-178 | past the primary answer, resolution succeeds exactly when some route answers safely before any quota answer |
| AnnaCatalog.PrimaryFailsExactly | providers/annas_archive/src/pullbox_provider_annas_archive/service.py:400-421 | which error the first answer gives, by its status and then by its complaint |
| AnnaCatalog.RoutesAreAnswers | providers/annas_archive/src/pullbox_provider_annas_archive/service.py:155-170 | the routes collected are exactly the usable answers before the first quota answer |
| AnnaCatalog.SecureMirrors | providers/annas_archive/src/pullbox_provider_annas_archive/service.py:424-447 | the mirrors are the safe routes, the first for each origin |
| AnnaCatalog.MirrorsAreDistinct | providers/annas_archive/src/pullbox_provider_annas_archive/service.py:429-437 | mirrors have safe addresses with distinct origins |
| AnnaCatalog.MirrorNames | providers/annas_archive/src/pullbox_provider_annas_archive/service.py:438-442 | the primary mirror and the alternates are named apart by their index |

## Left out

- Sockets, HTTP, DNS, redirects, browser-resolver payloads, cookies and credentials: outcomes of requests are inputs, and a source has fixed contents.
- FastAPI applications, request models, deadlines, logging and configuration: wiring, with nothing to prove beyond one branch.
- HTML, URL, JSON and regular-expression parsing: parsers get event sequences with stripped attributes and normalized text, readers get decoded fields, and URL checks are functions from text to an optional path or origin.
- Title parsing by regular expressions: its evidence is an input of `GetComicsDocument` and `GetComicsSearch`; only issue normalization and range expansion are modelled.
- Query construction: the exact and fallback queries of a search are inputs; that fallbacks exist only for a standard issue with a number is a precondition of `GetComicsSearch.Search`.
- Non-ASCII case folding, spaces and digits, and lone surrogates; the length limit of `int()` beyond 4300 digits.
- Decimal contexts: sizes are exact rationals, as the source computes them up to 18 significant digits.
- The resolver's table of runtimes per profile: each runtime is modelled on its own.
- Fetch failures inside enrichment: a fetch gives the source's fixed records. A fetcher error other than `LibGenMetadataError` leaves by exception and changes no cache entry; a fetcher that raised `LibGenMetadataError` itself would store a remembered absence, which is not modelled.
- The 512-entry and 2048-entry defaults: every cache capacity and lifetime is covered.
- Release pages: the groups they are read into are modelled; mirror normalization, host kinds, redirects and size text of GetComics artifacts are not.
- Addresses in catalog rows: whether a link is a download, file, edition or series page, and the value it carries, is a function of its address; the author, publisher, year, language and page count of a record are checked but not kept.
- Candidate presentation: a candidate keeps its evidence as a bundle; confidence and display text are copied, not recomputed, except Anna's rank penalty.
- GetComicsDocument.DocumentParser.FinishBlock: the active release group is an index into the list of groups, where the source holds a reference to the group itself.
- LibGenEnricher.LibGenMetadataEnricher.EnrichMany: requires distinct MD5 sums, which a page provides, and rows of an unambiguous family; how long a reply is can be any function of its records. A JSON array or object given for `visible`, `broken`, `filesize`, `pages`, `comics_id` or `year` raises an uncaught `TypeError` that ends the whole call; this is not modelled, `Malformed` being a rejection that is caught.
- HealthProbes.EveryProbeEnds: assumes a fetch that ends when it is cancelled or times out, as the probe's timeout does; how the other probes react to one that raised is any sequence of cancellations.
- CollectionTitles.ScannerEqualsGrammar: characters are classified as in ASCII plus the two dashes among the separators.
