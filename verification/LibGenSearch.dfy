/** LibGen search and resolution over a few mirrors: the cached search of one origin, the
    failover between origins, and stateless resolution. */
module LibGenSearch {
  import opened Decimals
  import opened LibGenMetadata
  import opened Results
  import opened Sequences
  import opened TtlCache
  import Enricher = LibGenEnricher
  import OrderedDicts

  type Record = Enricher.DiscoveredRecord

  /** Why an origin gave no answer. */
  datatype Failure =
    | ChallengeRequired | LayoutChanged | ResolverFailed | MetadataRejected | SourceFailed(retryable: bool)

  /** Whether the next origin is tried after a failure. */
  predicate Skips(failure: Failure) {
    failure.SourceFailed? ==> failure.retryable
  }

  // ----- One origin -----

  /** The records of a search page, by origin and query. */
  type Pages = (string, string) -> Result<seq<Record>, Failure>

  /** The queries made for an intent, by its serialized form. */
  datatype Planner = Planner(exact: string -> seq<string>, fallback: string -> string)

  function Queries(planner: Planner, intent: string): seq<string> {
    var exact, fallback := planner.exact(intent), planner.fallback(intent);
    if fallback != "" && fallback !in exact then exact + [fallback] else exact
  }

  /** Searching an origin without a cache: the first page with records decides. */
  function OriginAnswer(pages: Pages, origin: string, queries: seq<string>, limit: nat): Result<seq<Record>, Failure> {
    if queries == [] then Ok([])
    else
      match pages(origin, queries[0])
      case Err(failure) => Err(failure)
      case Ok(page) =>
        if page == [] then OriginAnswer(pages, origin, queries[1..], limit)
        else Ok(Take(FirstByKey(page, Enricher.Md5), limit))
  }

  function CacheKey(origin: string, limit: nat, intent: string): string {
    origin + ":" + Print(limit) + ":" + intent
  }

  /** A normalized origin: https, a host, no port and no path. */
  predicate IsOrigin(origin: string) {
    "https://" <= origin && ':' !in origin[8..]
  }

  lemma FirstFieldUnique(a: string, x: string, b: string, y: string)
    requires ':' !in a && ':' !in b && a + ":" + x == b + ":" + y
    ensures a == b && x == y
  {
    var m, n := a + ":" + x, b + ":" + y;
    assert m[|a|] == ':' && n[|b|] == ':';
    assert forall i :: 0 <= i < |a| ==> m[i] == a[i] && m[i] in a;
    assert forall i :: 0 <= i < |b| ==> n[i] == b[i] && n[i] in b;
    assert |a| == |b|;
    assert a == m[..|a|] && b == n[..|b|];
    assert x == m[|a| + 1..] && y == n[|b| + 1..];
  }

  /** One cache key stands for one origin, limit and intent. */
  lemma CacheKeyIsFaithful(o1: string, l1: nat, i1: string, o2: string, l2: nat, i2: string)
    requires IsOrigin(o1) && IsOrigin(o2) && CacheKey(o1, l1, i1) == CacheKey(o2, l2, i2)
    ensures o1 == o2 && l1 == l2 && i1 == i2
  {
    var x, y := Print(l1) + ":" + i1, Print(l2) + ":" + i2;
    var h1, h2 := o1[8..], o2[8..];
    assert o1 == "https://" + h1 && o2 == "https://" + h2;
    assert CacheKey(o1, l1, i1)[8..] == h1 + ":" + x && CacheKey(o2, l2, i2)[8..] == h2 + ":" + y;
    FirstFieldUnique(h1, x, h2, y);
    Enricher.NumeralHasNoColon(l1);
    Enricher.NumeralHasNoColon(l2);
    FirstFieldUnique(Print(l1), i1, Print(l2), i2);
    PrintInjective(l1, l2);
  }

  function Remembered(value: Option<seq<Record>>): seq<Record> {
    if value.Some? then value.value else []
  }

  /** Every entry, live or expired, is what searching now would answer. */
  ghost predicate Coherent(entries: Entries<string, seq<Record>>, pages: Pages, planner: Planner) {
    forall origin: string, limit: nat, intent: string {:trigger CacheKey(origin, limit, intent)} ::
      IsOrigin(origin) && CacheKey(origin, limit, intent) in entries.table ==>
        OriginAnswer(pages, origin, Queries(planner, intent), limit)
        == Ok(Remembered(entries.table[CacheKey(origin, limit, intent)].value))
  }

  lemma SetKeepsCoherence(settings: Settings, entries: Entries<string, seq<Record>>, pages: Pages, planner: Planner,
                          origin: string, limit: nat, intent: string, value: Option<seq<Record>>, now: real)
    requires ValidSettings(settings) && OrderedDicts.Valid(entries) && Coherent(entries, pages, planner)
    requires IsOrigin(origin)
    requires OriginAnswer(pages, origin, Queries(planner, intent), limit) == Ok(Remembered(value))
    ensures Coherent(SetEntry(settings, entries, CacheKey(origin, limit, intent), value, now), pages, planner)
  {
    hide OriginAnswer, Queries, SetEntry, IsOrigin;
    var key := CacheKey(origin, limit, intent);
    SetTable(settings, entries, key, value, now);
    var after := SetEntry(settings, entries, key, value, now);
    forall o: string, l: nat, i: string | IsOrigin(o) && CacheKey(o, l, i) in after.table
      ensures OriginAnswer(pages, o, Queries(planner, i), l) == Ok(Remembered(after.table[CacheKey(o, l, i)].value))
    {
      if CacheKey(o, l, i) == key {
        CacheKeyIsFaithful(o, l, i, origin, limit, intent);
      }
    }
  }

  lemma GetKeepsCoherence(entries: Entries<string, seq<Record>>, pages: Pages, planner: Planner, key: string, now: real)
    requires Coherent(entries, pages, planner)
    ensures Coherent(GetEntry(entries, key, now).0, pages, planner)
  {
    hide OriginAnswer;
    GetTable(entries, key, now);
  }

  // ----- Failover -----

  /** The answer of a list of origins: the first that is no skippable failure, else the
      last failure; nothing found when there is no origin. */
  function Failover<T>(outcomes: seq<Result<seq<T>, Failure>>): Result<seq<T>, Failure> {
    if outcomes == [] then Ok([])
    else if |outcomes| > 1 && outcomes[0].Err? && Skips(outcomes[0].error) then Failover(outcomes[1..])
    else outcomes[0]
  }

  predicate PassedOver<T(==)>(outcome: Result<seq<T>, Failure>) {
    outcome.Err? && Skips(outcome.error)
  }

  /** Failover answers with the outcome of one origin: all before it failed in a way that
      may be skipped, and it did not or was the last. */
  lemma {:induction false} FailoverPicksOne<T>(outcomes: seq<Result<seq<T>, Failure>>) returns (i: nat)
    requires outcomes != []
    ensures i < |outcomes| && Failover(outcomes) == outcomes[i]
    ensures forall j :: 0 <= j < i ==>
      outcomes[j].Err? && (outcomes[j].error.SourceFailed? ==> outcomes[j].error.retryable)
    ensures outcomes[i].Err? && (outcomes[i].error.SourceFailed? ==> outcomes[i].error.retryable) ==>
      i == |outcomes| - 1
  {
    i := 0;
    if |outcomes| > 1 && PassedOver(outcomes[0]) {
      i := FailoverPicksOne(outcomes[1..]);
      i := i + 1;
      assert forall j :: 0 < j < i ==> outcomes[j] == outcomes[1..][j - 1];
    }
  }

  lemma {:induction false} FailoverStep<T>(tried: seq<Result<seq<T>, Failure>>, rest: seq<Result<seq<T>, Failure>>)
    requires forall outcome :: outcome in tried ==> PassedOver(outcome)
    ensures rest != [] ==> Failover(tried + rest) == Failover(rest)
    ensures tried != [] ==> Failover(tried) == tried[|tried| - 1]
  {
    if tried == [] {
      assert tried + rest == rest;
    } else {
      assert PassedOver(tried[0]);
      assert (tried + rest)[1..] == tried[1..] + rest;
      FailoverStep(tried[1..], rest);
    }
  }

  function OriginAnswers(pages: Pages, planner: Planner, origins: seq<string>, limit: nat, intent: string)
    : seq<Result<seq<Record>, Failure>>
  {
    seq(|origins|, i requires 0 <= i < |origins| => OriginAnswer(pages, origins[i], Queries(planner, intent), limit))
  }

  // ----- The origins of an operation -----

  /** The first known origin that is not the preferred one and passes validation. */
  function Alternate(known: seq<string>, preferred: string, validate: string -> Option<string>): Option<string> {
    if known == [] then None
    else if known[0] == preferred || validate(known[0]).None? then Alternate(known[1..], preferred, validate)
    else validate(known[0])
  }

  /** The preferred origin first, then at most one alternate; None when the preferred one
      is refused. */
  method OperationOrigins(raw: string, known: seq<string>, validate: string -> Option<string>)
    returns (origins: Option<seq<string>>)
    ensures origins.None? <==> validate(raw).None?
    ensures origins.Some? ==>
      var alternate := Alternate(known, validate(raw).value, validate);
      origins.value == [validate(raw).value] + if alternate.Some? then [alternate.value] else []
  {
    var preferred := validate(raw);
    if preferred.None? {
      return None;
    }
    var found := [preferred.value];
    var i := 0;
    assert known[0..] == known;
    while i < |known|
      invariant 0 <= i <= |known| && found == [preferred.value]
      invariant Alternate(known, preferred.value, validate) == Alternate(known[i..], preferred.value, validate)
    {
      var candidate := known[i];
      assert known[i..][1..] == known[i + 1..];
      i := i + 1;
      if candidate == preferred.value {
        continue;
      }
      var alternate := validate(candidate);
      if alternate.None? {
        continue;
      }
      return Some(found + [alternate.value]);
    }
    return Some(found);
  }

  /** The two origins differ when known origins are written in their normal form. */
  lemma {:induction false} AlternateIsAnother(known: seq<string>, preferred: string, validate: string -> Option<string>)
    ensures Alternate(known, preferred, validate).Some? ==>
      exists i :: 0 <= i < |known| && known[i] != preferred
                  && validate(known[i]) == Alternate(known, preferred, validate)
                  && forall j :: 0 <= j < i ==> known[j] == preferred || validate(known[j]).None?
    ensures Alternate(known, preferred, validate).None? ==>
      forall origin :: origin in known && origin != preferred ==> validate(origin).None?
    ensures (forall origin :: origin in known && validate(origin).Some? ==> validate(origin) == Some(origin)) ==>
      Alternate(known, preferred, validate).Some? ==>
        Alternate(known, preferred, validate).value != preferred && Alternate(known, preferred, validate).value in known
  {
    if known != [] {
      AlternateIsAnother(known[1..], preferred, validate);
      assert known == [known[0]] + known[1..];
      var alternate := Alternate(known, preferred, validate);
      if alternate.Some? && (known[0] == preferred || validate(known[0]).None?) {
        var rest := known[1..];
        var i :| 0 <= i < |rest| && rest[i] != preferred && validate(rest[i]) == alternate
                 && forall j :: 0 <= j < i ==> rest[j] == preferred || validate(rest[j]).None?;
        assert known[i + 1] == rest[i];
        assert forall j :: 0 < j < i + 1 ==> known[j] == rest[j - 1];
      }
    }
  }

  // ----- The service -----

  class LibGenProviderService {
    const searchCache: BoundedTTLCache<string, seq<Record>>
    const pages: Pages
    const planner: Planner

    ghost predicate Valid()
      reads this, searchCache
    {
      searchCache.Valid() && Coherent(searchCache.entries, pages, planner)
    }

    constructor (cache: BoundedTTLCache<string, seq<Record>>, pages: Pages, planner: Planner)
      requires cache.Valid() && Coherent(cache.entries, pages, planner)
      ensures searchCache == cache && this.pages == pages && this.planner == planner && Valid()
    {
      searchCache := cache;
      this.pages := pages;
      this.planner := planner;
    }

    method LookUp(key: string) returns (lookup: Lookup<seq<Record>>)
      requires Valid()
      modifies searchCache
      ensures Valid()
      ensures lookup.hit ==>
        key in old(searchCache.entries.table) && lookup.value == old(searchCache.entries.table[key].value)
    {
      var now: real := *;
      GetKeepsCoherence(searchCache.entries, pages, planner, key, now);
      lookup := searchCache.Get(key, now);
    }

    method Store(origin: string, limit: nat, intent: string, value: Option<seq<Record>>)
      requires Valid() && IsOrigin(origin)
      requires OriginAnswer(pages, origin, Queries(planner, intent), limit) == Ok(Remembered(value))
      modifies searchCache
      ensures Valid()
    {
      var now: real := *;
      SetKeepsCoherence(searchCache.settings, searchCache.entries, pages, planner, origin, limit, intent, value, now);
      searchCache.Set(CacheKey(origin, limit, intent), value, now);
    }

    /** While a page is awaited, other searches may use the cache. */
    method AwaitPage()
      requires Valid()
      modifies searchCache
      ensures Valid()
    {
      hide Coherent, OriginAnswer;
      var steps: nat := *;
      while steps > 0
        invariant Valid()
      {
        var stores: bool, key: string, origin: string := *, *, *;
        var limit: nat, intent: string, value: Option<seq<Record>> := *, *, *;
        var answer := OriginAnswer(pages, origin, Queries(planner, intent), limit);
        if stores && IsOrigin(origin) && answer == Ok(Remembered(value)) {
          Store(origin, limit, intent, value);
        } else {
          var lookup := LookUp(key);
        }
        steps := steps - 1;
      }
    }

    /** The records of one page that were not seen before, up to the limit. */
    method CollectQuery(page: seq<Record>, limit: nat) returns (records: seq<Record>)
      ensures Take(records, limit) == Take(FirstByKey(page, Enricher.Md5), limit)
      ensures records == [] <==> page == []
    {
      hide FirstByKey, KeysOf;
      var discoveries, seen := [], {};
      NoRecords();
      for i := 0 to |page|
        invariant discoveries == FirstByKey(page[..i], Enricher.Md5) && seen == KeysOf(page[..i], Enricher.Md5)
        invariant i > 0 ==> discoveries != []
      {
        assert page[..i + 1] == page[..i] + [page[i]];
        FirstByKeyStep(page[..i], page[i], Enricher.Md5);
        NoneSeen(page[..i]);
        if Enricher.Md5(page[i]) !in seen {
          seen := seen + {Enricher.Md5(page[i])};
          discoveries := discoveries + [page[i]];
        }
      }
      assert page[..|page|] == page;
      records := [];
      for i := 0 to |discoveries|
        invariant records == discoveries[..i]
      {
        records := records + [discoveries[i]];
        if |records| >= limit {
          assert records == discoveries[..i + 1];
          return;
        }
      }
      assert discoveries[..|discoveries|] == discoveries;
    }

    /** Searching one origin answers what the origin would answer now, whatever the cache
        holds and whatever the clock reads. */
    method SearchOrigin(origin: string, limit: nat, intent: string) returns (result: Result<seq<Record>, Failure>)
      requires Valid() && IsOrigin(origin)
      modifies searchCache
      ensures Valid()
      ensures result == OriginAnswer(pages, origin, Queries(planner, intent), limit)
    {
      var cached := LookUp(CacheKey(origin, limit, intent));
      if cached.hit {
        return Ok(Remembered(cached.value));
      }
      hide Coherent;
      var queries := Queries(planner, intent);
      var i := 0;
      assert queries[0..] == queries;
      while i < |queries|
        invariant 0 <= i <= |queries| && Valid()
        invariant OriginAnswer(pages, origin, queries, limit) == OriginAnswer(pages, origin, queries[i..], limit)
      {
        AwaitPage();
        assert queries[i..][1..] == queries[i + 1..];
        var page := pages(origin, queries[i]);
        if page.Err? {
          return Err(page.error);
        }
        var records := CollectQuery(page.value, limit);
        if records != [] {
          Store(origin, limit, intent, Some(Take(records, limit)));
          return Ok(Take(records, limit));
        }
        i := i + 1;
      }
      Store(origin, limit, intent, None);
      return Ok([]);
    }

    /** A search is the failover over what its origins would answer now. */
    method Search(origins: seq<string>, limit: nat, intent: string) returns (result: Result<seq<Record>, Failure>)
      requires Valid() && forall origin :: origin in origins ==> IsOrigin(origin)
      modifies searchCache
      ensures Valid()
      ensures result == Failover(OriginAnswers(pages, planner, origins, limit, intent))
    {
      hide Coherent, OriginAnswer, IsOrigin, Failover;
      ghost var answers := OriginAnswers(pages, planner, origins, limit, intent);
      var lastError: Option<Failure> := None;
      for i := 0 to |origins|
        invariant Valid()
        invariant forall outcome :: outcome in answers[..i] ==> PassedOver(outcome)
        invariant lastError.Some? <==> i > 0
        invariant i > 0 ==> answers[i - 1] == Err(lastError.value)
      {
        var outcome := SearchOrigin(origins[i], limit, intent);
        assert outcome == answers[i] == answers[i..][0] && answers == answers[..i] + answers[i..];
        FailoverStep(answers[..i], answers[i..]);
        if outcome.Ok? || !Skips(outcome.error) {
          FailoverStops(answers[i..]);
          return outcome;
        }
        lastError := Some(outcome.error);
        assert answers[..i + 1] == answers[..i] + [outcome];
      }
      assert answers[..|origins|] == answers;
      FailoverStep(answers, []);
      FailoverOfNone<Record>();
      return if lastError.Some? then Err(lastError.value) else Ok([]);
    }
  }

  lemma NoRecords()
    ensures FirstByKey([], Enricher.Md5) == [] && KeysOf([], Enricher.Md5) == {}
  {
  }

  lemma NoneSeen(page: seq<Record>)
    ensures page == [] ==> KeysOf(page, Enricher.Md5) == {}
  {
  }

  lemma FailoverStops<T>(outcomes: seq<Result<seq<T>, Failure>>)
    requires outcomes != [] && !PassedOver(outcomes[0])
    ensures Failover(outcomes) == outcomes[0]
  {
  }

  lemma FailoverOfNone<T>()
    ensures Failover<T>([]) == Ok([])
  {
  }

  // ----- What a search answers -----

  /** The answer of an origin is the page of its first query that finds anything, each
      record once and no more than the limit; no later query is made. */
  lemma {:induction false} FirstPageDecides(pages: Pages, origin: string, queries: seq<string>, limit: nat, n: nat)
    requires n < |queries| && forall m :: 0 <= m < n ==> pages(origin, queries[m]) == Ok([])
    ensures pages(origin, queries[n]).Err? ==>
      OriginAnswer(pages, origin, queries, limit) == Err(pages(origin, queries[n]).error)
    ensures pages(origin, queries[n]).Ok? && pages(origin, queries[n]).value != [] ==>
      OriginAnswer(pages, origin, queries, limit)
      == Ok(Take(FirstByKey(pages(origin, queries[n]).value, Enricher.Md5), limit))
  {
    if n > 0 {
      assert pages(origin, queries[0]) == Ok([]);
      FirstPageDecides(pages, origin, queries[1..], limit, n - 1);
    }
  }

  /** What a search answers from the page that decides it. */
  function PageAnswer(page: Result<seq<Record>, Failure>, limit: nat): Result<seq<Record>, Failure> {
    if page.Err? then Err(page.error) else Ok(Take(FirstByKey(page.value, Enricher.Md5), limit))
  }

  /** The exact queries come first, and the first of them with records or an error decides.
      Only when all of them are empty is the title asked for, unless it is blank or was
      asked already. */
  lemma FallbackIsAskedExactly(pages: Pages, planner: Planner, origin: string, intent: string, limit: nat)
    ensures var exact, fallback := planner.exact(intent), planner.fallback(intent);
      var answer := OriginAnswer(pages, origin, Queries(planner, intent), limit);
      && (forall n | 0 <= n < |exact| && forall m :: 0 <= m < n ==> pages(origin, exact[m]) == Ok([]) ::
            pages(origin, exact[n]) != Ok([]) ==> answer == PageAnswer(pages(origin, exact[n]), limit))
      && ((forall n :: 0 <= n < |exact| ==> pages(origin, exact[n]) == Ok([])) ==>
            answer == if fallback != "" && fallback !in exact then PageAnswer(pages(origin, fallback), limit)
                      else Ok([]))
  {
    hide Take, FirstByKey, OriginAnswer;
    var exact, fallback := planner.exact(intent), planner.fallback(intent);
    var queries := Queries(planner, intent);
    forall n | 0 <= n < |exact| && (forall m :: 0 <= m < n ==> pages(origin, exact[m]) == Ok([]))
               && pages(origin, exact[n]) != Ok([])
      ensures OriginAnswer(pages, origin, queries, limit) == PageAnswer(pages(origin, exact[n]), limit)
    {
      assert queries[n] == exact[n];
      FirstPageDecides(pages, origin, queries, limit, n);
    }
    if forall n :: 0 <= n < |exact| ==> pages(origin, exact[n]) == Ok([]) {
      if |queries| > |exact| && pages(origin, fallback) != Ok([]) {
        assert queries[|exact|] == fallback;
        FirstPageDecides(pages, origin, queries, limit, |exact|);
      } else {
        NoPageDecides(pages, origin, queries, limit);
      }
    }
  }

  lemma {:induction false} NoPageDecides(pages: Pages, origin: string, queries: seq<string>, limit: nat)
    requires forall n :: 0 <= n < |queries| ==> pages(origin, queries[n]) == Ok([])
    ensures OriginAnswer(pages, origin, queries, limit) == Ok([]) == PageAnswer(Ok([]), limit)
  {
    if queries != [] {
      assert pages(origin, queries[0]) == Ok([]);
      NoPageDecides(pages, origin, queries[1..], limit);
    }
  }

  /** Nothing is found on an origin exactly when every page is empty, or the limit is 0. */
  lemma {:induction false} NothingFoundExactly(pages: Pages, origin: string, queries: seq<string>, limit: nat)
    requires limit > 0
    ensures OriginAnswer(pages, origin, queries, limit) == Ok([]) <==>
      forall n :: 0 <= n < |queries| ==> pages(origin, queries[n]) == Ok([])
  {
    if queries != [] {
      NothingFoundExactly(pages, origin, queries[1..], limit);
      assert forall n :: 0 < n < |queries| ==> queries[n] == queries[1..][n - 1];
      if pages(origin, queries[0]).Ok? && pages(origin, queries[0]).value != [] {
        FoundSomething(pages(origin, queries[0]).value, limit);
      }
    }
  }

  lemma FoundSomething(page: seq<Record>, limit: nat)
    requires page != [] && limit > 0
    ensures Take(FirstByKey(page, Enricher.Md5), limit) != []
  {
    FirstByKeyDistinct(page, Enricher.Md5);
    assert Enricher.Md5(page[0]) in KeysOf(page, Enricher.Md5);
  }

  // ----- Stateless resolution -----

  datatype Download = Download(file: FileMetadata, edition: Option<EditionMetadata>, destination: string)

  /** Resolving a candidate on one origin of fixed contents; `redirect` is where its
      download leads. */
  function ResolveOrigin(source: Source, redirect: Result<string, Failure>, md5: string): Result<Download, Failure> {
    var file := ParseFileByMd5(Md5Reply(source, md5), md5);
    if file.None? then Err(MetadataRejected)
    else
      var edition := Enricher.EditionOf(source, file.value);
      if file.value.editionId.Some? && edition.None? then Err(MetadataRejected)
      else if redirect.Err? then Err(redirect.error)
      else Ok(Download(file.value, edition, redirect.value))
  }

  /** A record that was enriched, names no edition itself and is the only one with its MD5
      sum resolves to the same file and edition, except that an edition enrichment ignored
      as invalid fails the resolution. */
  lemma ResolveAgreesWithEnrichment(source: Source, redirect: Result<string, Failure>, record: Record)
    requires Enricher.Enriched(source, record).Some?
    requires record.expected.editionId.None?
    requires |Carriers(ByMd5(source.files, record.expected.md5), record.expected.md5)| == 1
    ensures var candidate := Enricher.Enriched(source, record).value;
      ResolveOrigin(source, redirect, record.expected.md5)
      == if candidate.file.editionId.Some? && candidate.edition.None? then Err(MetadataRejected)
         else if redirect.Err? then Err(redirect.error)
         else Ok(Download(candidate.file, candidate.edition, redirect.value))
  {
    hide ParseFile, ParseFileByMd5, ParseEdition, Carriers;
    StatelessResolveAgrees(Md5Reply(source, record.expected.md5), record.expected);
  }

  /** An origin resolves a candidate exactly to the file its records describe for the MD5
      sum alone, with the edition that file belongs to, at the end of its redirect. */
  lemma ResolvesExactly(source: Source, redirect: Result<string, Failure>, md5: string, download: Download)
    ensures ResolveOrigin(source, redirect, md5) == Ok(download) <==>
      && DescribesFile(source.files, Expectation(md5, None, None, None, None, None), download.file)
      && source.fileBytes(ByMd5(source.files, md5)) <= 524288
      && redirect == Ok(download.destination)
      && download.edition.Some? == download.file.editionId.Some?
      && (download.edition.Some? ==>
            && source.editionBytes(ByIds(source.editions, {download.file.editionId.value})) <= 524288
            && DescribesEdition(source.editions, download.file.editionId.value, download.file.fileId,
                                download.edition.value))
  {
    var expected := Expectation(md5, None, None, None, None, None);
    Enricher.FileVerdictExactly(source, expected, download.file);
    if download.edition.Some? && download.file.editionId.Some? {
      Enricher.EditionVerdictExactly(source, download.file.editionId.value, download.file.fileId,
                                     download.edition.value);
    }
    var file := ParseFileByMd5(Md5Reply(source, md5), md5);
    assert IsMd5(md5) ==> file == Enricher.FileVerdict(source, expected).alone;
    hide Enricher.FileVerdict, Enricher.EditionVerdict, ParseFileByMd5, ParseFile, DescribesEdition, ByMd5, ByIds;
  }
}
