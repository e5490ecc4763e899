/** Anna's Archive: candidates borrowed from the LibGen catalog, and the download routes
    of one candidate. */
module AnnaCatalog {
  import opened Decimals
  import opened Results
  import opened Sequences
  import opened Strings
  import LibGenMetadata

  datatype Candidate = Candidate(
    id: string,
    reference: string,
    title: string,
    fingerprint: Option<string>,
    confidence: real)

  const MOBILE := "digital-mobile"

  predicate IsMobile(candidate: Candidate) {
    Contains(Lower(candidate.title), MOBILE)
  }

  predicate IsCanonicalFile(candidate: Candidate) {
    !IsMobile(candidate)
  }

  /** Canonical files before mobile derivatives. */
  function Rank(candidate: Candidate): nat {
    if IsMobile(candidate) then 1 else 0
  }

  /** The stable sort by rank. */
  function Sorted(catalog: seq<Candidate>): seq<Candidate> {
    Filter(catalog, IsCanonicalFile) + Filter(catalog, IsMobile)
  }

  /** The MD5 sum both the fingerprint and the identifier carry, when they agree. */
  function Md5Of(candidate: Candidate): Option<string> {
    if candidate.fingerprint.Some? && "md5:" <= candidate.fingerprint.value then
      var md5 := candidate.fingerprint.value[4..];
      if LibGenMetadata.IsMd5(md5) && candidate.id == "libgen:" + md5 then Some(md5) else None
    else
      None
  }

  predicate HasIdentity(candidate: Candidate) {
    Md5Of(candidate).Some?
  }

  function AnnaOf(domain: string, candidate: Candidate): Candidate
    requires HasIdentity(candidate)
  {
    var md5 := Md5Of(candidate).value;
    var confidence := candidate.confidence - 0.05 * Rank(candidate) as real;
    Candidate("anna:" + md5, domain + "/md5/" + md5, candidate.title, None,
              if confidence < 0.0 then 0.0 else confidence)
  }

  function AllAnna(domain: string, candidates: seq<Candidate>): seq<Candidate>
    requires forall c :: c in candidates ==> HasIdentity(c)
  {
    if candidates == [] then []
    else AllAnna(domain, candidates[..|candidates| - 1]) + [AnnaOf(domain, candidates[|candidates| - 1])]
  }

  /** The best copies: one candidate with a valid identity for each MD5 sum, best rank
      first and earliest first within a rank. */
  function BestCopies(catalog: seq<Candidate>): (best: seq<Candidate>)
    ensures forall c :: c in best ==> HasIdentity(c) && c in catalog
  {
    var valid := Filter(Sorted(catalog), HasIdentity);
    FirstByKeyDistinct(valid, Md5Of);
    FilterContents(Sorted(catalog), HasIdentity);
    FilterContents(catalog, IsCanonicalFile);
    FilterContents(catalog, IsMobile);
    FirstByKey(valid, Md5Of)
  }

  method CandidatesFromCatalog(catalog: seq<Candidate>, domain: string, limit: nat) returns (candidates: seq<Candidate>)
    ensures candidates == AllAnna(domain, if limit == 0 then BestCopies(catalog) else Take(BestCopies(catalog), limit))
  {
    hide Sorted, Filter, FirstByKey, KeysOf, Md5Of, AnnaOf, IsMobile;
    var sorted := Sorted(catalog);
    candidates := [];
    NothingKept();
    var seen: set<Option<string>> := {};
    ghost var kept: seq<Candidate> := [];
    for i := 0 to |sorted|
      invariant KeptSoFar(sorted[..i], kept, seen)
      invariant candidates == AllAnna(domain, kept)
      invariant limit > 0 ==> |kept| < limit
    {
      var candidate := sorted[i];
      KeptStep(sorted, i, kept, seen);
      if Md5Of(candidate).None? || Md5Of(candidate) in seen {
        continue;
      }
      seen := seen + {Md5Of(candidate)};
      kept := kept + [candidate];
      candidates := candidates + [AnnaOf(domain, candidate)];
      AllAnnaLength(domain, kept);
      if |candidates| == limit {
        BestCopiesBegin(catalog, i + 1, kept);
        return;
      }
    }
    assert sorted[..|sorted|] == sorted;
  }

  /** What the loop holds after reading some of the sorted candidates. */
  ghost predicate KeptSoFar(read: seq<Candidate>, kept: seq<Candidate>, seen: set<Option<string>>) {
    && kept == FirstByKey(Filter(read, HasIdentity), Md5Of)
    && seen == KeysOf(Filter(read, HasIdentity), Md5Of)
    && forall c :: c in kept ==> HasIdentity(c)
  }

  lemma NothingKept()
    ensures KeptSoFar([], [], {})
  {
  }

  lemma KeptStep(sorted: seq<Candidate>, i: nat, kept: seq<Candidate>, seen: set<Option<string>>)
    requires i < |sorted| && KeptSoFar(sorted[..i], kept, seen)
    ensures var candidate := sorted[i];
      if Md5Of(candidate).None? || Md5Of(candidate) in seen then KeptSoFar(sorted[..i + 1], kept, seen)
      else KeptSoFar(sorted[..i + 1], kept + [candidate], seen + {Md5Of(candidate)})
  {
    hide Md5Of, FirstByKey, KeysOf, Filter;
    var candidate := sorted[i];
    assert sorted[..i + 1] == sorted[..i] + [candidate];
    FilterStep(sorted[..i], candidate, HasIdentity);
    var valid := Filter(sorted[..i], HasIdentity);
    assert valid + [] == valid;
    if HasIdentity(candidate) {
      FirstByKeyStep(valid, candidate, Md5Of);
      assert kept + [] == kept;
      assert seen + {Md5Of(candidate)} == if Md5Of(candidate) in seen then seen else seen + {Md5Of(candidate)};
    }
  }

  lemma {:induction false} AllAnnaLength(domain: string, candidates: seq<Candidate>)
    requires forall c :: c in candidates ==> HasIdentity(c)
    ensures |AllAnna(domain, candidates)| == |candidates|
    ensures forall i :: 0 <= i < |candidates| ==> AllAnna(domain, candidates)[i] == AnnaOf(domain, candidates[i])
  {
    if candidates != [] {
      AllAnnaLength(domain, candidates[..|candidates| - 1]);
    }
  }

  lemma BestCopiesBegin(catalog: seq<Candidate>, n: nat, kept: seq<Candidate>)
    requires n <= |Sorted(catalog)|
    requires kept == FirstByKey(Filter(Sorted(catalog)[..n], HasIdentity), Md5Of)
    ensures kept == Take(BestCopies(catalog), |kept|)
  {
    hide FirstByKey, Filter;
    var sorted := Sorted(catalog);
    assert sorted == sorted[..n] + sorted[n..];
    FilterAppend(sorted[..n], sorted[n..], HasIdentity);
    FirstByKeyGrows(Filter(sorted[..n], HasIdentity), Filter(sorted[n..], HasIdentity), Md5Of);
  }

  // ----- Sorting -----

  /** `sorted` holds the same candidates by rank, those of one rank in their old order. */
  ghost predicate IsStableSort(catalog: seq<Candidate>, sorted: seq<Candidate>) {
    && (forall i, j :: 0 <= i < j < |sorted| ==> Rank(sorted[i]) <= Rank(sorted[j]))
    && Filter(sorted, IsCanonicalFile) == Filter(catalog, IsCanonicalFile)
    && Filter(sorted, IsMobile) == Filter(catalog, IsMobile)
  }

  /** A sequence ordered by rank is its canonical files followed by its mobile ones. */
  lemma {:induction false} OrderedSplits(sorted: seq<Candidate>)
    requires forall i, j :: 0 <= i < j < |sorted| ==> Rank(sorted[i]) <= Rank(sorted[j])
    ensures sorted == Filter(sorted, IsCanonicalFile) + Filter(sorted, IsMobile)
  {
    hide IsMobile, Filter;
    if sorted == [] {
      NoneSorted();
    } else {
      var front, last := sorted[..|sorted| - 1], sorted[|sorted| - 1];
      OrderedSplits(front);
      assert sorted == front + [last];
      FilterStep(front, last, IsCanonicalFile);
      FilterStep(front, last, IsMobile);
      var canonical, mobile := Filter(front, IsCanonicalFile), Filter(front, IsMobile);
      if IsMobile(last) {
        assert (canonical + []) + (mobile + [last]) == (canonical + mobile) + [last];
      } else {
        forall c | c in front ensures !IsMobile(c) {
          var i :| 0 <= i < |front| && front[i] == c;
          assert Rank(sorted[i]) <= Rank(sorted[|sorted| - 1]);
        }
        FilterNone(front, IsMobile);
        assert (canonical + [last]) + (mobile + []) == canonical + [last];
        assert canonical + [] == canonical;
      }
    }
  }

  lemma NoneSorted()
    ensures Filter([], IsCanonicalFile) == [] && Filter([], IsMobile) == []
  {
  }

  /** There is one stable sort by rank. */
  lemma SortedIsTheStableSort(catalog: seq<Candidate>, sorted: seq<Candidate>)
    ensures IsStableSort(catalog, sorted) <==> sorted == Sorted(catalog)
  {
    hide IsMobile, Filter;
    var canonical, mobile := Filter(catalog, IsCanonicalFile), Filter(catalog, IsMobile);
    if IsStableSort(catalog, sorted) {
      OrderedSplits(sorted);
    }
    if sorted == Sorted(catalog) {
      FilterContents(catalog, IsCanonicalFile);
      FilterContents(catalog, IsMobile);
      FilterAppend(canonical, mobile, IsCanonicalFile);
      FilterAppend(canonical, mobile, IsMobile);
      FilterAll(canonical, IsCanonicalFile);
      FilterAll(mobile, IsMobile);
      FilterNone(canonical, IsMobile);
      FilterNone(mobile, IsCanonicalFile);
      assert canonical + [] == canonical && [] + mobile == mobile;
    }
  }

  // ----- Main results -----

  /** An element kept by a filter stood at some place before which the filter kept exactly
      the elements before it. */
  lemma {:induction false} FilterPlace<T>(xs: seq<T>, keep: T -> bool, k: nat) returns (i: nat)
    requires k < |Filter(xs, keep)|
    ensures i < |xs| && xs[i] == Filter(xs, keep)[k] && keep(xs[i])
    ensures Filter(xs[..i], keep) == Filter(xs, keep)[..k]
  {
    var front := xs[..|xs| - 1];
    if k < |Filter(front, keep)| {
      i := FilterPlace(front, keep, k);
      assert front[..i] == xs[..i];
    } else {
      i := |front|;
    }
  }

  /** Whether catalog[i] is a better or earlier copy than catalog[j]. */
  ghost predicate AtLeastAsGood(catalog: seq<Candidate>, i: nat, j: nat)
    requires i < |catalog| && j < |catalog|
  {
    Rank(catalog[i]) < Rank(catalog[j]) || (Rank(catalog[i]) == Rank(catalog[j]) && i <= j)
  }

  /** A place among the sorted candidates goes back to the catalog with everything better
      or earlier in front of it. */
  lemma SortedPlace(catalog: seq<Candidate>, k: nat) returns (i: nat)
    requires k < |Sorted(catalog)|
    ensures i < |catalog| && catalog[i] == Sorted(catalog)[k]
    ensures forall j :: 0 <= j < |catalog| && !AtLeastAsGood(catalog, i, j) ==> catalog[j] in Sorted(catalog)[..k]
  {
    hide IsMobile, Filter;
    var canonical, mobile := Filter(catalog, IsCanonicalFile), Filter(catalog, IsMobile);
    FilterContents(catalog, IsCanonicalFile);
    if k < |canonical| {
      i := FilterPlace(catalog, IsCanonicalFile, k);
      FilterContents(catalog[..i], IsCanonicalFile);
      assert Sorted(catalog)[..k] == canonical[..k];
      forall j | 0 <= j < |catalog| && !AtLeastAsGood(catalog, i, j) ensures catalog[j] in Sorted(catalog)[..k] {
        assert j < i && catalog[j] == catalog[..i][j];
      }
    } else {
      i := FilterPlace(catalog, IsMobile, k - |canonical|);
      FilterContents(catalog[..i], IsMobile);
      assert Sorted(catalog)[..k] == canonical + mobile[..k - |canonical|];
      forall j | 0 <= j < |catalog| && !AtLeastAsGood(catalog, i, j) ensures catalog[j] in Sorted(catalog)[..k] {
        if IsMobile(catalog[j]) {
          assert j < i && catalog[j] == catalog[..i][j];
        } else {
          assert catalog[j] in canonical;
        }
      }
    }
  }

  lemma NoEarlierCopy(read: seq<Candidate>, valid: seq<Candidate>, candidate: Candidate)
    requires Filter(read, HasIdentity) == valid && candidate !in valid && HasIdentity(candidate)
    ensures candidate !in read
  {
    FilterContents(read, HasIdentity);
  }

  /** Each best copy stands at a catalog place that no other copy of the same MD5 sum
      beats, by rank first and by order within a rank. */
  lemma BestCopyIsBest(catalog: seq<Candidate>, copy: Candidate) returns (i: nat)
    requires copy in BestCopies(catalog)
    ensures i < |catalog| && catalog[i] == copy
    ensures forall j :: 0 <= j < |catalog| && Md5Of(catalog[j]) == Md5Of(copy) ==> AtLeastAsGood(catalog, i, j)
  {
    hide Md5Of, Filter, FirstByKey, AtLeastAsGood, Sorted;
    var sorted := Sorted(catalog);
    var valid := Filter(sorted, HasIdentity);
    var k := FirstByKeyIsFirst(valid, Md5Of, copy);
    var place := FilterPlace(sorted, HasIdentity, k);
    assert HasIdentity(copy);
    i := SortedPlace(catalog, place);
    forall j | 0 <= j < |catalog| && Md5Of(catalog[j]) == Md5Of(copy) ensures AtLeastAsGood(catalog, i, j) {
      NoEarlierCopy(sorted[..place], valid[..k], catalog[j]);
    }
  }

  /** Every MD5 sum with a valid identity in the catalog has exactly one best copy. */
  lemma EveryMd5HasOneCopy(catalog: seq<Candidate>, candidate: Candidate)
    requires candidate in catalog && HasIdentity(candidate)
    ensures exists copy :: copy in BestCopies(catalog) && Md5Of(copy) == Md5Of(candidate)
    ensures forall i, j :: 0 <= i < j < |BestCopies(catalog)| ==>
      Md5Of(BestCopies(catalog)[i]) != Md5Of(BestCopies(catalog)[j])
  {
    hide Md5Of, Filter, FirstByKey, IsMobile;
    var valid := Filter(Sorted(catalog), HasIdentity);
    FilterContents(catalog, IsCanonicalFile);
    FilterContents(catalog, IsMobile);
    FilterContents(Sorted(catalog), HasIdentity);
    FirstByKeyDistinct(valid, Md5Of);
    assert Md5Of(candidate) in KeysOf(valid, Md5Of);
  }

  // ----- Download routes -----

  const DOMAIN_INDICES := [0, 2, 4, 6]

  /** What a fast-download request gives: an error of its own, or a response. */
  datatype Outcome = Refused(error: Failure) | Response(status: nat, complaint: Complaint, url: Option<string>)

  /** The error text of a payload, as the service sorts it. */
  datatype Complaint = NoComplaint | Quota | Unavailable

  datatype Failure = CandidateNotFound | AuthenticationRequired | QuotaLimited | SourceUnavailable | Malformed

  datatype Mirror = Mirror(id: string, url: string)

  /** The host and port of a safe https address. */
  type Origins = string -> Option<(string, nat)>

  datatype Route = Route(index: nat, url: Option<string>)

  predicate IsQuota(response: Outcome) {
    response.Response? && (response.status == 429 || response.complaint.Quota?)
  }

  predicate IsUsable(response: Outcome) {
    response.Response? && (response.status == 200 || response.status == 204)
  }

  function PrimaryError(response: Outcome): Option<Failure> {
    if response.Refused? then Some(response.error)
    else if response.status == 401 || response.status == 403 then Some(AuthenticationRequired)
    else if IsQuota(response) then Some(QuotaLimited)
    else if response.complaint.Unavailable? then Some(CandidateNotFound)
    else if !IsUsable(response) then Some(SourceUnavailable)
    else None
  }

  function CandidateMd5(id: string): Option<string> {
    if "anna:" <= id && LibGenMetadata.IsMd5(id[5..]) then Some(id[5..]) else None
  }

  /** Where a route leads, when its address is safe. */
  function RouteOrigin(origins: Origins, route: Route): Option<(string, nat)> {
    if route.url.Some? then origins(route.url.value) else None
  }

  function HasOrigin(origins: Origins): Route -> bool {
    route => RouteOrigin(origins, route).Some?
  }

  function OriginOf(origins: Origins): Route -> Option<(string, nat)> {
    route => RouteOrigin(origins, route)
  }

  function MirrorOf(md5: string, route: Route): Mirror
    requires route.url.Some?
  {
    Mirror("anna-fast:" + md5 + ":" + (if route.index == 0 then "0" else "domain-" + Print(route.index)),
           route.url.value)
  }

  function MirrorsOf(md5: string, routes: seq<Route>): seq<Mirror>
    requires forall route :: route in routes ==> route.url.Some?
  {
    if routes == [] then []
    else MirrorsOf(md5, routes[..|routes| - 1]) + [MirrorOf(md5, routes[|routes| - 1])]
  }

  /** The safe routes, one for each origin. */
  function SafeRoutes(origins: Origins, routes: seq<Route>): (safe: seq<Route>)
    ensures forall route :: route in safe ==> route.url.Some? && route in routes
  {
    var usable := Filter(routes, HasOrigin(origins));
    FilterContents(routes, HasOrigin(origins));
    FirstByKeyDistinct(usable, OriginOf(origins));
    FirstByKey(usable, OriginOf(origins))
  }

  method SecureMirrors(origins: Origins, md5: string, routes: seq<Route>) returns (mirrors: seq<Mirror>)
    ensures mirrors == MirrorsOf(md5, SafeRoutes(origins, routes))
  {
    mirrors := [];
    var seen: set<Option<(string, nat)>> := {};
    ghost var kept: seq<Route> := [];
    for i := 0 to |routes|
      invariant RoutesSoFar(origins, routes[..i], kept, seen)
      invariant mirrors == MirrorsOf(md5, kept)
    {
      var route := routes[i];
      RoutesStep(origins, routes, i, kept, seen);
      if route.url.None? {
        continue;
      }
      var origin := origins(route.url.value);
      if origin.None? || origin in seen {
        continue;
      }
      seen := seen + {origin};
      assert (kept + [route])[..|kept|] == kept;
      kept := kept + [route];
      mirrors := mirrors + [MirrorOf(md5, route)];
    }
    assert routes[..|routes|] == routes;
  }

  ghost predicate RoutesSoFar(origins: Origins, read: seq<Route>, kept: seq<Route>, seen: set<Option<(string, nat)>>) {
    && kept == FirstByKey(Filter(read, HasOrigin(origins)), OriginOf(origins))
    && seen == KeysOf(Filter(read, HasOrigin(origins)), OriginOf(origins))
    && forall route :: route in kept ==> route.url.Some?
  }

  lemma RoutesStep(origins: Origins, routes: seq<Route>, i: nat, kept: seq<Route>, seen: set<Option<(string, nat)>>)
    requires i < |routes| && RoutesSoFar(origins, routes[..i], kept, seen)
    ensures var route := routes[i]; var origin := RouteOrigin(origins, route);
      if origin.None? || origin in seen then RoutesSoFar(origins, routes[..i + 1], kept, seen)
      else RoutesSoFar(origins, routes[..i + 1], kept + [route], seen + {origin})
  {
    hide FirstByKey, KeysOf, Filter;
    var route := routes[i];
    assert routes[..i + 1] == routes[..i] + [route];
    FilterStep(routes[..i], route, HasOrigin(origins));
    var usable := Filter(routes[..i], HasOrigin(origins));
    assert usable + [] == usable && kept + [] == kept;
    if HasOrigin(origins)(route) {
      FirstByKeyStep(usable, route, OriginOf(origins));
      var origin := RouteOrigin(origins, route);
      assert seen + {origin} == if origin in seen then seen else seen + {origin};
    }
  }

  type Requests = nat -> Outcome

  /** The usable answers to the requests before the first answer about quota. */
  function RoutesBeforeQuota(requests: Requests, indices: seq<nat>): seq<Route> {
    if indices == [] || IsQuota(requests(indices[0])) then []
    else
      (if IsUsable(requests(indices[0])) then [Route(indices[0], requests(indices[0]).url)] else [])
      + RoutesBeforeQuota(requests, indices[1..])
  }

  function Resolved(requests: Requests, origins: Origins, id: string, hasKey: bool): Result<seq<Mirror>, Failure> {
    var md5 := CandidateMd5(id);
    if md5.None? then Err(CandidateNotFound)
    else if !hasKey then Err(AuthenticationRequired)
    else if PrimaryError(requests(0)).Some? then Err(PrimaryError(requests(0)).value)
    else
      var safe := SafeRoutes(origins, RoutesBeforeQuota(requests, DOMAIN_INDICES));
      if safe == [] then Err(Malformed) else Ok(MirrorsOf(md5.value, safe))
  }

  /** The primary route, and then the alternates until one answers about quota. */
  method CollectRoutes(requests: Requests) returns (routes: seq<Route>)
    requires PrimaryError(requests(0)).None?
    ensures routes == RoutesBeforeQuota(requests, DOMAIN_INDICES)
  {
    routes := [Route(0, requests(0).url)];
    var rest := DOMAIN_INDICES[1..];
    PrimaryRouteLeads(requests);
    assert rest[0..] == rest;
    var i := 0;
    while i < |rest|
      invariant 0 <= i <= |rest|
      invariant RoutesBeforeQuota(requests, DOMAIN_INDICES) == routes + RoutesBeforeQuota(requests, rest[i..])
    {
      hide PrimaryError;
      var alternate := requests(rest[i]);
      assert rest[i..][1..] == rest[i + 1..];
      ghost var later := RoutesBeforeQuota(requests, rest[i + 1..]);
      if IsQuota(alternate) {
        assert RoutesBeforeQuota(requests, rest[i..]) == [];
        i := |rest|;
        break;
      }
      if IsUsable(alternate) {
        assert routes + ([Route(rest[i], alternate.url)] + later) == (routes + [Route(rest[i], alternate.url)]) + later;
        routes := routes + [Route(rest[i], alternate.url)];
      } else {
        assert [] + later == later;
      }
      i := i + 1;
    }
    assert routes + [] == routes;
  }

  method Resolve(requests: Requests, origins: Origins, id: string, hasKey: bool)
    returns (result: Result<seq<Mirror>, Failure>)
    ensures result == Resolved(requests, origins, id, hasKey)
  {
    var md5 := CandidateMd5(id);
    if md5.None? {
      return Err(CandidateNotFound);
    }
    if !hasKey {
      return Err(AuthenticationRequired);
    }
    var primary := requests(0);
    if PrimaryError(primary).Some? {
      return Err(PrimaryError(primary).value);
    }
    var routes := CollectRoutes(requests);
    var mirrors := SecureMirrors(origins, md5.value, routes);
    MirrorCount(md5.value, SafeRoutes(origins, routes));
    if mirrors == [] {
      return Err(Malformed);
    }
    return Ok(mirrors);
  }

  lemma PrimaryRouteLeads(requests: Requests)
    requires PrimaryError(requests(0)).None?
    ensures RoutesBeforeQuota(requests, DOMAIN_INDICES)
         == [Route(0, requests(0).url)] + RoutesBeforeQuota(requests, DOMAIN_INDICES[1..])
  {
  }

  lemma {:induction false} MirrorCount(md5: string, routes: seq<Route>)
    requires forall route :: route in routes ==> route.url.Some?
    ensures |MirrorsOf(md5, routes)| == |routes|
    ensures forall i :: 0 <= i < |routes| ==> MirrorsOf(md5, routes)[i] == MirrorOf(md5, routes[i])
  {
    if routes != [] {
      MirrorCount(md5, routes[..|routes| - 1]);
    }
  }

  /** The mirrors of one candidate lead to distinct origins. */
  lemma MirrorsAreDistinct(origins: Origins, md5: string, routes: seq<Route>)
    ensures var mirrors := MirrorsOf(md5, SafeRoutes(origins, routes));
      && (forall mirror :: mirror in mirrors ==> origins(mirror.url).Some?)
      && forall i, j :: 0 <= i < j < |mirrors| ==> origins(mirrors[i].url) != origins(mirrors[j].url)
  {
    var usable := Filter(routes, HasOrigin(origins));
    var safe := SafeRoutes(origins, routes);
    FilterContents(routes, HasOrigin(origins));
    FirstByKeyDistinct(usable, OriginOf(origins));
    MirrorCount(md5, safe);
    hide Filter, FirstByKey, MirrorsOf;
    forall i | 0 <= i < |safe| ensures origins(safe[i].url.value).Some? {
      assert safe[i] in usable;
      assert HasOrigin(origins)(safe[i]);
    }
    forall i, j | 0 <= i < j < |safe| ensures origins(safe[i].url.value) != origins(safe[j].url.value) {
      assert OriginOf(origins)(safe[i]) != OriginOf(origins)(safe[j]);
    }
  }

  lemma {:induction false} SomeSafeRoute(requests: Requests, origins: Origins, indices: seq<nat>)
    ensures SafeRoutes(origins, RoutesBeforeQuota(requests, indices)) != [] <==>
      exists route :: route in RoutesBeforeQuota(requests, indices) && RouteOrigin(origins, route).Some?
  {
    var routes := RoutesBeforeQuota(requests, indices);
    var usable := Filter(routes, HasOrigin(origins));
    FilterContents(routes, HasOrigin(origins));
    FirstByKeyDistinct(usable, OriginOf(origins));
    if usable != [] {
      assert OriginOf(origins)(usable[0]) in KeysOf(usable, OriginOf(origins));
      assert usable[0] in usable;
    }
  }

  /** Whether the nth request gives this route, with no quota answer up to it. */
  ghost predicate Answers(requests: Requests, indices: seq<nat>, route: Route, n: int) {
    && 0 <= n < |indices|
    && requests(indices[n]).Response? && requests(indices[n]).status in {200, 204}
    && route == Route(indices[n], requests(indices[n]).url)
    && forall m :: 0 <= m <= n ==> SparesQuota(requests(indices[m]))
  }

  predicate SparesQuota(outcome: Outcome) {
    outcome.Response? ==> outcome.status != 429 && !outcome.complaint.Quota?
  }

  lemma AnswersLater(requests: Requests, indices: seq<nat>, route: Route, n: int)
    requires indices != [] && !IsQuota(requests(indices[0])) && n > 0
    ensures Answers(requests, indices, route, n) <==> Answers(requests, indices[1..], route, n - 1)
  {
    assert SparesQuota(requests(indices[0]));
    hide SparesQuota, IsUsable;
    var rest := indices[1..];
    assert n < |indices| ==> indices[n] == rest[n - 1];
    if Answers(requests, rest, route, n - 1) {
      forall m | 0 <= m <= n ensures SparesQuota(requests(indices[m])) {
        assert m > 0 ==> indices[m] == rest[m - 1];
      }
    }
  }

  lemma {:induction false} RoutesAreAnswers(requests: Requests, indices: seq<nat>, route: Route)
    ensures route in RoutesBeforeQuota(requests, indices) <==> exists n :: Answers(requests, indices, route, n)
  {
    if indices != [] && !IsQuota(requests(indices[0])) {
      var rest := indices[1..];
      RoutesAreAnswers(requests, rest, route);
      hide Answers, RoutesBeforeQuota;
      FirstAnswer(requests, indices, route);
      if exists n :: Answers(requests, rest, route, n) {
        var n :| Answers(requests, rest, route, n);
        AnswersBounds(requests, rest, route, n);
        AnswersLater(requests, indices, route, n + 1);
      }
      if exists n :: n > 0 && Answers(requests, indices, route, n) {
        var n :| n > 0 && Answers(requests, indices, route, n);
        AnswersLater(requests, indices, route, n);
      }
      forall n | Answers(requests, indices, route, n) ensures n >= 0 {
        AnswersBounds(requests, indices, route, n);
      }
    }
  }

  lemma AnswersBounds(requests: Requests, indices: seq<nat>, route: Route, n: int)
    requires Answers(requests, indices, route, n)
    ensures 0 <= n < |indices|
  {
  }

  lemma FirstAnswer(requests: Requests, indices: seq<nat>, route: Route)
    requires indices != [] && !IsQuota(requests(indices[0]))
    ensures Answers(requests, indices, route, 0) <==>
      IsUsable(requests(indices[0])) && route == Route(indices[0], requests(indices[0]).url)
  {
  }

  /** Past the primary request, resolving succeeds exactly when some route answers safely
      before any request is refused for quota; a later quota answer takes nothing away. */
  lemma ResolvesExactly(requests: Requests, origins: Origins, id: string)
    requires CandidateMd5(id).Some? && PrimaryError(requests(0)).None?
    ensures Resolved(requests, origins, id, true).Ok? <==>
      exists route, n :: Answers(requests, DOMAIN_INDICES, route, n) && RouteOrigin(origins, route).Some?
  {
    hide RoutesBeforeQuota, SafeRoutes, MirrorsOf, Answers;
    var routes := RoutesBeforeQuota(requests, DOMAIN_INDICES);
    SomeSafeRoute(requests, origins, DOMAIN_INDICES);
    if exists route :: route in routes && RouteOrigin(origins, route).Some? {
      var route :| route in routes && RouteOrigin(origins, route).Some?;
      RoutesAreAnswers(requests, DOMAIN_INDICES, route);
    }
    forall route, n | Answers(requests, DOMAIN_INDICES, route, n) ensures route in routes {
      RoutesAreAnswers(requests, DOMAIN_INDICES, route);
    }
  }

  // ----- Identities -----

  /** An MD5 sum is a candidate's own exactly when its fingerprint and its identifier both
      carry it. */
  lemma Md5OfExactly(candidate: Candidate, md5: string)
    ensures Md5Of(candidate) == Some(md5) <==>
      LibGenMetadata.IsMd5(md5) && candidate.fingerprint == Some("md5:" + md5) && candidate.id == "libgen:" + md5
  {
    hide LibGenMetadata.IsMd5;
    assert ("md5:" + md5)[4..] == md5 && ("libgen:" + md5)[7..] == md5;
    if candidate.fingerprint.Some? && "md5:" <= candidate.fingerprint.value {
      assert candidate.fingerprint.value == "md5:" + candidate.fingerprint.value[4..];
    }
  }

  lemma CandidateMd5Exactly(id: string, md5: string)
    ensures CandidateMd5(id) == Some(md5) <==> LibGenMetadata.IsMd5(md5) && id == "anna:" + md5
  {
    hide LibGenMetadata.IsMd5;
    assert ("anna:" + md5)[5..] == md5;
    if "anna:" <= id {
      assert id == "anna:" + id[5..];
    }
  }

  /** A file is a mobile derivative exactly when its title says so somewhere, in any case. */
  lemma MobileExactly(candidate: Candidate)
    ensures Rank(candidate) == 1 <==>
      exists i :: 0 <= i <= |candidate.title| && "digital-mobile" <= Lower(candidate.title)[i..]
    ensures Rank(candidate) == 0 || Rank(candidate) == 1
  {
    ContainsExactly(Lower(candidate.title), MOBILE);
  }

  /** A borrowed candidate can be resolved by its new identifier, points to the page of its
      MD5 sum on the domain, claims no fingerprint, and is trusted less when it is mobile. */
  lemma BorrowedCandidate(domain: string, candidate: Candidate, md5: string)
    requires Md5Of(candidate) == Some(md5)
    ensures var borrowed := AnnaOf(domain, candidate);
      && CandidateMd5(borrowed.id) == Some(md5)
      && borrowed.reference == domain + "/md5/" + md5
      && borrowed.title == candidate.title && borrowed.fingerprint.None?
      && (candidate.confidence >= 0.05 ==>
            borrowed.confidence == candidate.confidence - if IsMobile(candidate) then 0.05 else 0.0)
      && (0.0 <= candidate.confidence < 0.05 ==>
            borrowed.confidence == if IsMobile(candidate) then 0.0 else candidate.confidence)
  {
    Md5OfExactly(candidate, md5);
    CandidateMd5Exactly("anna:" + md5, md5);
    hide LibGenMetadata.IsMd5, CandidateMd5, Md5Of, IsMobile;
  }

  /** How the first answer ends a resolution, by its status and then by its complaint. */
  lemma PrimaryFailsExactly(status: nat, complaint: Complaint, url: Option<string>)
    ensures var failure := PrimaryError(Response(status, complaint, url));
      && (failure == Some(AuthenticationRequired) <==> status == 401 || status == 403)
      && (failure == Some(QuotaLimited) <==> status == 429 || (complaint.Quota? && status != 401 && status != 403))
      && (failure == Some(CandidateNotFound) <==> complaint.Unavailable? && status !in {401, 403, 429})
      && (failure == Some(SourceUnavailable) <==> complaint.NoComplaint? && status !in {200, 204, 401, 403, 429})
      && (failure.None? <==> complaint.NoComplaint? && status in {200, 204})
    ensures forall error :: PrimaryError(Refused(error)) == Some(error)
  {
  }

  /** The mirror of the primary route and those of the alternates. */
  lemma MirrorNames(md5: string, url: string)
    ensures MirrorOf(md5, Route(0, Some(url))) == Mirror("anna-fast:" + md5 + ":0", url)
    ensures MirrorOf(md5, Route(2, Some(url))) == Mirror("anna-fast:" + md5 + ":domain-2", url)
    ensures MirrorOf(md5, Route(6, Some(url))) == Mirror("anna-fast:" + md5 + ":domain-6", url)
  {
    assert "domain-" + "2" == "domain-2" && "domain-" + "6" == "domain-6";
    assert Print(2) == "2" && Print(6) == "6";
  }
}
