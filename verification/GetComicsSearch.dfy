/** Searching GetComics: the candidates of one page, and the queries of one search. */
module GetComicsSearch {
  import opened Results
  import opened Sequences
  import Decimals
  import IssueNumbers
  import Document = GetComicsDocument
  import Identity = GetComicsIdentity

  datatype Parsed = Parsed(
    seriesTitle: string,
    issueNumbers: seq<string>,
    volume: Option<string>,
    year: Option<int>,
    format: Option<string>)

  datatype Candidate = Candidate(id: string, path: string, title: string, parsed: Parsed)

  datatype Failure = SourceFailed | LayoutChanged | UnreadableIssue

  function Id(candidate: Candidate): string {
    candidate.id
  }

  // ----- One search page -----

  /** How links are read: the canonical path of an address on the source's domain, and
      the evidence in a title. */
  datatype Reader = Reader(utf8: Identity.Charset, path: string -> Option<string>, evidence: string -> Parsed)

  predicate Listed(reader: Reader, link: Document.Link) {
    "post-title" in link.context && link.text != "" && reader.path(link.href).Some?
  }

  /** Every release link of a page as a candidate, in order; one unprintable path fails
      the page. */
  function Listing(reader: Reader, links: seq<Document.Link>): Result<seq<Candidate>, Failure> {
    if links == [] then Ok([])
    else
      var front, last := Listing(reader, links[..|links| - 1]), links[|links| - 1];
      if front.Err? || !Listed(reader, last) then front
      else
        var path := reader.path(last.href).value;
        var id := Identity.Identity(reader.utf8, path);
        if id.Err? then Err(LayoutChanged)
        else Ok(front.value + [Candidate(id.value, path, last.text, reader.evidence(last.text))])
  }

  function PageOf(reader: Reader, classes: set<string>, links: seq<Document.Link>): Result<seq<Candidate>, Failure> {
    if "search-title" !in classes then Err(LayoutChanged)
    else
      var listing := Listing(reader, links);
      if listing.Err? then listing else Ok(FirstByKey(listing.value, Id))
  }

  lemma {:induction false} ListingFails(reader: Reader, links: seq<Document.Link>, n: nat)
    requires n <= |links| && Listing(reader, links[..n]).Err?
    ensures Listing(reader, links) == Listing(reader, links[..n]) == Err(LayoutChanged)
  {
    if n == |links| && links != [] {
      assert links[..n] == links;
      var front := links[..n - 1];
      if Listing(reader, front).Err? {
        assert front[..n - 1] == front;
        ListingFails(reader, front, n - 1);
      }
    } else if links != [] {
      assert links[..|links| - 1][..n] == links[..n];
      ListingFails(reader, links[..|links| - 1], n);
    }
  }

  method ParseSearchPage(reader: Reader, document: Document.Document) returns (page: Result<seq<Candidate>, Failure>)
    ensures page == PageOf(reader, document.allClasses, document.links)
  {
    if "search-title" !in document.allClasses {
      return Err(LayoutChanged);
    }
    var links := document.links;
    var candidates, seen := [], {};
    ghost var listed: seq<Candidate> := [];
    for n := 0 to |links|
      invariant Listing(reader, links[..n]) == Ok(listed)
      invariant candidates == FirstByKey(listed, Id) && seen == KeysOf(listed, Id)
    {
      var link := links[n];
      assert links[..n + 1][..n] == links[..n];
      if Listed(reader, link) {
        var path := reader.path(link.href).value;
        var id := Identity.Identity(reader.utf8, path);
        if id.Err? {
          ListingFails(reader, links, n + 1);
          return Err(LayoutChanged);
        }
        var candidate := Candidate(id.value, path, link.text, reader.evidence(link.text));
        FirstByKeyStep(listed, candidate, Id);
        listed := listed + [candidate];
        if id.value !in seen {
          seen := seen + {id.value};
          candidates := candidates + [candidate];
        }
      }
    }
    assert links[..|links|] == links;
    return Ok(candidates);
  }

  /** A listing fails exactly when it meets a release link whose path cannot be printed. */
  lemma {:induction false} ListingFailsExactly(reader: Reader, links: seq<Document.Link>)
    ensures Listing(reader, links).Err? <==>
      exists link :: link in links && IsRelease(reader, link)
                     && !(1 <= |reader.utf8.encode(reader.path(link.href).value)| <= 360)
  {
    if links != [] {
      var front, last := links[..|links| - 1], links[|links| - 1];
      ListingFailsExactly(reader, front);
      assert links == front + [last];
      if Listed(reader, last) {
        Identity.PrintableExactly(reader.utf8, reader.path(last.href).value);
      }
    }
  }

  /** A page is refused exactly when it has no search title or lists a path that cannot
      be printed. */
  lemma PageIsRefusedExactly(reader: Reader, classes: set<string>, links: seq<Document.Link>)
    ensures PageOf(reader, classes, links).Err? <==>
      || "search-title" !in classes
      || exists link :: link in links && IsRelease(reader, link)
                        && !(1 <= |reader.utf8.encode(reader.path(link.href).value)| <= 360)
    ensures PageOf(reader, classes, links).Err? ==> PageOf(reader, classes, links) == Err(LayoutChanged)
  {
    ListingFailsExactly(reader, links);
    if Listing(reader, links).Err? {
      assert links[..|links|] == links;
      ListingFails(reader, links, |links|);
    }
  }

  /** A link with a text, under an element of class "post-title", to a path of the source. */
  ghost predicate IsRelease(reader: Reader, link: Document.Link) {
    && (exists c :: c in link.context && c == "post-title")
    && |link.text| > 0 && exists path :: reader.path(link.href) == Some(path)
  }

  ghost predicate ReadFrom(reader: Reader, candidate: Candidate, link: Document.Link) {
    && IsRelease(reader, link)
    && reader.path(link.href) == Some(candidate.path)
    && Identity.Identity(reader.utf8, candidate.path) == Ok(candidate.id)
    && candidate.title == link.text && candidate.parsed == reader.evidence(link.text)
  }

  /** The listing follows the release links one for one. */
  lemma {:induction false} ListingFollowsLinks(reader: Reader, links: seq<Document.Link>)
    requires Listing(reader, links).Ok?
    ensures var listed, kept := Listing(reader, links).value, Filter(links, link => IsRelease(reader, link));
      |listed| == |kept| && forall i :: 0 <= i < |listed| ==> ReadFrom(reader, listed[i], kept[i])
  {
    if links != [] {
      ListingFollowsLinks(reader, links[..|links| - 1]);
    }
  }

  /** The candidates of a page have distinct paths as well as distinct identifiers. */
  lemma PageListsEachPathOnce(reader: Reader, classes: set<string>, links: seq<Document.Link>)
    requires Identity.Lawful(reader.utf8) && PageOf(reader, classes, links).Ok?
    ensures var page := PageOf(reader, classes, links).value;
      forall i, j :: 0 <= i < j < |page| ==> page[i].id != page[j].id && page[i].path != page[j].path
  {
    var listed, page := Listing(reader, links).value, PageOf(reader, classes, links).value;
    ListingFollowsLinks(reader, links);
    FirstByKeyDistinct(listed, Id);
    forall i, j | 0 <= i < j < |page| ensures Id(page[i]) != Id(page[j]) && page[i].path != page[j].path {
      assert page[i] in listed && page[j] in listed;
    }
  }

  /** A listed path is missing from the page only behind an earlier link to it. */
  lemma PageMissesNoPath(reader: Reader, classes: set<string>, links: seq<Document.Link>, link: Document.Link)
    returns (candidate: Candidate)
    requires PageOf(reader, classes, links).Ok?
    requires Identity.Lawful(reader.utf8) && link in links && IsRelease(reader, link)
    ensures candidate in PageOf(reader, classes, links).value && Some(candidate.path) == reader.path(link.href)
  {
    var listed, kept := Listing(reader, links).value, Filter(links, l => IsRelease(reader, l));
    ListingFollowsLinks(reader, links);
    FilterContents(links, l => IsRelease(reader, l));
    assert link in kept;
    var i :| 0 <= i < |kept| && kept[i] == link;
    FirstByKeyDistinct(listed, Id);
    var page := FirstByKey(listed, Id);
    assert Id(listed[i]) in KeysOf(listed, Id);
    assert Id(listed[i]) in KeysOf(page, Id);
    candidate :| candidate in page && Id(candidate) == Id(listed[i]);
    assert candidate in listed;
    var j :| 0 <= j < |listed| && listed[j] == candidate;
    Identity.IdentityInjective(reader.utf8, candidate.path, listed[i].path);
  }

  /** From the page's tree to its candidates: the release links are the innermost anchors
      under a "post-title" element, in closing order. */
  lemma TreeToPage(reader: Reader, evidence: Document.Evidence, nodes: seq<Document.Node>)
    requires forall node :: node in nodes ==> Document.WellFormed(node)
    ensures var document := Document.Feed(Document.EMPTY_DOCUMENT, evidence, Document.Events(nodes));
      PageOf(reader, document.allClasses, document.links)
      == PageOf(reader, Document.Classes(nodes), Document.Anchors(nodes, {}))
  {
    Document.ParsingReadsTheTree(evidence, nodes);
  }

  // ----- What an intent asks for -----

  datatype Intent = Intent(
    collection: bool,
    issueNumber: Option<string>,
    titles: seq<string>,
    releaseYear: Option<int>,
    seriesYear: Option<int>,
    year: Option<int>)

  /** A title reduced to its folded letters and digits. */
  type Folding = string -> string

  predicate WantsIssue(intent: Intent) {
    intent.issueNumber.Some? && intent.issueNumber.value != ""
  }

  predicate ReadableIssue(intent: Intent) {
    intent.issueNumber.Some? && IssueNumbers.Normalize(intent.issueNumber.value).Some?
  }

  predicate NamesSeries(fold: Folding, intent: Intent, title: string) {
    fold(title) != "" && exists known :: known in intent.titles && fold(known) == fold(title)
  }

  function ExpectedYears(intent: Intent): set<int> {
    set year | year in {intent.releaseYear, intent.seriesYear, intent.year} && year.Some? :: year.value
  }

  predicate FitsYears(intent: Intent, year: Option<int>) {
    ExpectedYears(intent) == {} || year.None? || year.value in ExpectedYears(intent)
  }

  predicate Covers(fold: Folding, intent: Intent, candidate: Candidate) {
    && ReadableIssue(intent)
    && IssueNumbers.Normalize(intent.issueNumber.value).value in candidate.parsed.issueNumbers
    && NamesSeries(fold, intent, candidate.parsed.seriesTitle)
    && FitsYears(intent, candidate.parsed.year)
  }

  predicate SomeCovers(fold: Folding, intent: Intent, candidates: seq<Candidate>) {
    exists candidate :: candidate in candidates && Covers(fold, intent, candidate)
  }

  /** Whether some candidate covers the requested issue; reading the issue number fails
      on the first candidate looked at. */
  function Coverage(fold: Folding, intent: Intent, candidates: seq<Candidate>): Result<bool, Failure> {
    if !WantsIssue(intent) || candidates == [] then Ok(false)
    else if !ReadableIssue(intent) then Err(UnreadableIssue)
    else Ok(SomeCovers(fold, intent, candidates))
  }

  function Covering(fold: Folding, intent: Intent): Candidate -> bool {
    c => Covers(fold, intent, c)
  }

  function Missing(fold: Folding, intent: Intent): Candidate -> bool {
    c => !Covers(fold, intent, c)
  }

  function CoveringFirst(fold: Folding, intent: Intent, candidates: seq<Candidate>): seq<Candidate> {
    Filter(candidates, Covering(fold, intent)) + Filter(candidates, Missing(fold, intent))
  }

  // ----- The queries of a search -----

  type Pages = string -> Result<seq<Candidate>, Failure>

  function PageCandidates(page: Result<seq<Candidate>, Failure>): seq<Candidate> {
    if page.Ok? then page.value else []
  }

  function Gathered(pages: Pages, queries: seq<string>): seq<Candidate> {
    if queries == [] then []
    else Gathered(pages, queries[..|queries| - 1]) + PageCandidates(pages(queries[|queries| - 1]))
  }

  /** The candidates known after some queries: each identifier once, as first seen. */
  function Found(pages: Pages, queries: seq<string>): seq<Candidate> {
    FirstByKey(Gathered(pages, queries), Id)
  }

  /** Whether a search looks no further than its first n queries. */
  ghost predicate StopsAfter(pages: Pages, fold: Folding, intent: Intent, queries: seq<string>, limit: nat, n: nat)
    requires n <= |queries|
  {
    var found := Found(pages, queries[..n]);
    if intent.collection then n > 0 && |found| >= limit
    else Coverage(fold, intent, found) != Ok(false)
  }

  function Answer(fold: Folding, intent: Intent, found: seq<Candidate>, limit: nat): Result<seq<Candidate>, Failure> {
    if intent.collection then Ok(Take(found, limit))
    else if Coverage(fold, intent, found).Err? then Err(UnreadableIssue)
    else Ok(Take(CoveringFirst(fold, intent, found), limit))
  }

  /** What a search does: it issues the shortest prefix of its queries after which it may
      stop, unless a page fails first, and answers from the candidates found. */
  ghost predicate IsSearch(pages: Pages, fold: Folding, intent: Intent, queries: seq<string>, limit: nat, issued: nat,
                           result: Result<seq<Candidate>, Failure>)
  {
    && issued <= |queries|
    && (forall n :: 0 <= n < issued ==> !StopsAfter(pages, fold, intent, queries, limit, n) && pages(queries[n]).Ok?)
    && if StopsAfter(pages, fold, intent, queries, limit, issued) || issued == |queries| then
         result == Answer(fold, intent, Found(pages, queries[..issued]), limit)
       else
         pages(queries[issued]).Err? && result == Err(pages(queries[issued]).error)
  }

  method AppendSearchCandidates(page: seq<Candidate>, candidates: seq<Candidate>, seen: set<string>,
                                ghost prior: seq<Candidate>)
    returns (longer: seq<Candidate>, nowSeen: set<string>)
    requires seen == KeysOf(prior, Id)
    ensures nowSeen == KeysOf(prior + page, Id)
    ensures FirstByKey(prior, Id) <= FirstByKey(prior + page, Id)
    ensures longer == candidates + FirstByKey(prior + page, Id)[|FirstByKey(prior, Id)|..]
  {
    hide FirstByKey, KeysOf;
    longer, nowSeen := candidates, seen;
    ghost var known := |FirstByKey(prior, Id)|;
    assert prior + page[..0] == prior;
    for i := 0 to |page|
      invariant nowSeen == KeysOf(prior + page[..i], Id)
      invariant FirstByKey(prior, Id) <= FirstByKey(prior + page[..i], Id)
      invariant longer == candidates + FirstByKey(prior + page[..i], Id)[known..]
    {
      assert prior + page[..i + 1] == (prior + page[..i]) + [page[i]];
      FirstByKeyStep(prior + page[..i], page[i], Id);
      ghost var before := FirstByKey(prior + page[..i], Id);
      assert page[i].id !in nowSeen ==> (before + [page[i]])[known..] == before[known..] + [page[i]];
      if page[i].id !in nowSeen {
        nowSeen := nowSeen + {page[i].id};
        longer := longer + [page[i]];
      }
    }
    assert page[..|page|] == page;
  }

  lemma NothingFound(pages: Pages)
    ensures Found(pages, []) == [] && KeysOf(Gathered(pages, []), Id) == {}
  {
  }

  lemma GatherStep(pages: Pages, queries: seq<string>, n: nat)
    requires n < |queries|
    ensures Gathered(pages, queries[..n + 1]) == Gathered(pages, queries[..n]) + PageCandidates(pages(queries[n]))
  {
    assert queries[..n + 1][..n] == queries[..n];
  }

  /** Candidates that do not cover the intent keep their place behind later ones that do. */
  lemma CoveringFirstAfterNone(fold: Folding, intent: Intent, first: seq<Candidate>, second: seq<Candidate>)
    requires forall c :: c in first ==> !Covers(fold, intent, c)
    ensures CoveringFirst(fold, intent, first + second)
         == Filter(second, Covering(fold, intent)) + first + Filter(second, Missing(fold, intent))
  {
    hide Filter, Covers;
    var covers, misses := Covering(fold, intent), Missing(fold, intent);
    FilterAppend(first, second, covers);
    FilterAppend(first, second, misses);
    FilterNone(first, covers);
    FilterAll(first, misses);
    var a, b := Filter(second, covers), Filter(second, misses);
    assert ([] + a) + (first + b) == a + first + b;
  }

  /** With no covering candidate the arrangement changes nothing. */
  lemma NothingCovering(fold: Folding, intent: Intent, found: seq<Candidate>)
    requires Coverage(fold, intent, found) == Ok(false)
    ensures forall c :: c in found ==> !Covers(fold, intent, c)
    ensures CoveringFirst(fold, intent, found) == found
  {
    if intent.issueNumber == Some("") {
      assert IssueNumbers.Normalize("").None?;
    }
    CoveringFirstAfterNone(fold, intent, found, []);
    assert found + [] == found && [] + found + [] == found;
  }

  /** A search that issued some queries without stopping before the last of them. */
  ghost predicate Progress(pages: Pages, fold: Folding, intent: Intent, queries: seq<string>, limit: nat, issued: nat,
                           found: seq<Candidate>, seen: set<string>)
  {
    && issued <= |queries|
    && found == Found(pages, queries[..issued])
    && seen == KeysOf(Gathered(pages, queries[..issued]), Id)
    && forall n :: 0 <= n < issued ==> !StopsAfter(pages, fold, intent, queries, limit, n) && pages(queries[n]).Ok?
  }

  /** Whether a search that found these candidates goes on to its next query. */
  predicate GoesOn(fold: Folding, intent: Intent, limit: nat, issued: nat, found: seq<Candidate>) {
    if intent.collection then issued == 0 || |found| < limit else Coverage(fold, intent, found) == Ok(false)
  }

  lemma ProgressStarts(pages: Pages, fold: Folding, intent: Intent, queries: seq<string>, limit: nat)
    ensures Progress(pages, fold, intent, queries, limit, 0, [], {}) && GoesOn(fold, intent, limit, 0, [])
  {
    NothingFound(pages);
  }

  lemma ProgressSteps(pages: Pages, fold: Folding, intent: Intent, queries: seq<string>, limit: nat, issued: nat,
                      found: seq<Candidate>, seen: set<string>, longer: seq<Candidate>, nowSeen: set<string>)
    requires Progress(pages, fold, intent, queries, limit, issued, found, seen)
    requires GoesOn(fold, intent, limit, issued, found)
    requires issued < |queries| && pages(queries[issued]).Ok?
    requires var prior, page := Gathered(pages, queries[..issued]), pages(queries[issued]).value;
      && nowSeen == KeysOf(prior + page, Id)
      && longer == FirstByKey(prior + page, Id)
    ensures Progress(pages, fold, intent, queries, limit, issued + 1, longer, nowSeen)
  {
    GatherStep(pages, queries, issued);
    hide FirstByKey, KeysOf, Gathered, Coverage;
    assert !StopsAfter(pages, fold, intent, queries, limit, issued);
  }

  lemma ProgressAnswers(pages: Pages, fold: Folding, intent: Intent, queries: seq<string>, limit: nat, issued: nat,
                        found: seq<Candidate>, seen: set<string>)
    requires Progress(pages, fold, intent, queries, limit, issued, found, seen)
    requires !GoesOn(fold, intent, limit, issued, found) || issued == |queries|
    ensures IsSearch(pages, fold, intent, queries, limit, issued, Answer(fold, intent, found, limit))
  {
    hide Found, KeysOf, Gathered, Coverage, Answer;
  }

  lemma ProgressFails(pages: Pages, fold: Folding, intent: Intent, queries: seq<string>, limit: nat, issued: nat,
                      found: seq<Candidate>, seen: set<string>)
    requires Progress(pages, fold, intent, queries, limit, issued, found, seen)
    requires GoesOn(fold, intent, limit, issued, found) && issued < |queries| && pages(queries[issued]).Err?
    ensures IsSearch(pages, fold, intent, queries, limit, issued, Err(pages(queries[issued]).error))
  {
    hide Found, KeysOf, Gathered, Coverage, Answer;
  }

  method Search(pages: Pages, fold: Folding, intent: Intent, exact: seq<string>, fallbacks: seq<string>, limit: nat)
    returns (result: Result<seq<Candidate>, Failure>, issued: nat)
    requires fallbacks != [] ==> !intent.collection && WantsIssue(intent)
    ensures IsSearch(pages, fold, intent, exact + fallbacks, limit, issued, result)
  {
    hide IsSearch, Progress, Found, Gathered, FirstByKey, KeysOf, Filter, Coverage, CoveringFirst;
    ghost var queries := exact + fallbacks;
    var candidates, seen := [], {};
    issued := 0;
    ProgressStarts(pages, fold, intent, queries, limit);
    while issued < |exact|
      invariant issued <= |exact|
      invariant Progress(pages, fold, intent, queries, limit, issued, candidates, seen)
      invariant GoesOn(fold, intent, limit, issued, candidates)
    {
      var page := pages(exact[issued]);
      if page.Err? {
        ProgressFails(pages, fold, intent, queries, limit, issued, candidates, seen);
        return Err(page.error), issued;
      }
      ghost var found, wasSeen, prior := candidates, seen, Gathered(pages, queries[..issued]);
      ProgressFound(pages, fold, intent, queries, limit, issued, found, seen);
      candidates, seen := AppendSearchCandidates(page.value, candidates, seen, prior);
      assert [] + found == found && [] + candidates == candidates;
      AppendedIsFound(prior, page.value, [], found);
      ProgressSteps(pages, fold, intent, queries, limit, issued, found, wasSeen, candidates, seen);
      issued := issued + 1;
      if !intent.collection {
        var covered := Coverage(fold, intent, candidates);
        if covered != Ok(false) {
          ProgressAnswers(pages, fold, intent, queries, limit, issued, candidates, seen);
          CoverageFails(fold, intent, candidates);
          if covered.Err? {
            return Err(covered.error), issued;
          }
          return Ok(Take(CoveringFirst(fold, intent, candidates), limit)), issued;
        }
      }
      if |candidates| >= limit && intent.collection {
        ProgressAnswers(pages, fold, intent, queries, limit, issued, candidates, seen);
        return Ok(Take(candidates, limit)), issued;
      }
    }
    if fallbacks != [] {
      result, issued := SearchFallbacks(pages, fold, intent, exact, fallbacks, limit, candidates, seen);
      return;
    }
    assert queries == exact;
    ProgressAnswers(pages, fold, intent, queries, limit, issued, candidates, seen);
    if !intent.collection {
      NothingCovering(fold, intent, candidates);
    }
    return Ok(Take(candidates, limit)), issued;
  }

  lemma CoverageFails(fold: Folding, intent: Intent, candidates: seq<Candidate>)
    ensures var coverage := Coverage(fold, intent, candidates); coverage.Err? ==> coverage.error == UnreadableIssue
  {
  }

  /** Appending the page's new candidates to the last part of those found. */
  lemma AppendedIsFound(prior: seq<Candidate>, page: seq<Candidate>, earlier: seq<Candidate>,
                        candidates: seq<Candidate>)
    requires earlier + candidates == FirstByKey(prior, Id) <= FirstByKey(prior + page, Id)
    ensures earlier + (candidates + FirstByKey(prior + page, Id)[|FirstByKey(prior, Id)|..])
         == FirstByKey(prior + page, Id)
  {
    hide FirstByKey;
    var before, after := FirstByKey(prior, Id), FirstByKey(prior + page, Id);
    assert earlier + (candidates + after[|before|..]) == (earlier + candidates) + after[|before|..];
  }

  /** What Progress says about the candidates found. */
  lemma ProgressFound(pages: Pages, fold: Folding, intent: Intent, queries: seq<string>, limit: nat, issued: nat,
                      found: seq<Candidate>, seen: set<string>)
    requires Progress(pages, fold, intent, queries, limit, issued, found, seen)
    ensures issued <= |queries|
    ensures var prior := Gathered(pages, queries[..issued]);
      found == FirstByKey(prior, Id) && seen == KeysOf(prior, Id)
  {
  }

  method SearchFallbacks(pages: Pages, fold: Folding, intent: Intent, exact: seq<string>, fallbacks: seq<string>,
                         limit: nat, candidates: seq<Candidate>, alreadySeen: set<string>)
    returns (result: Result<seq<Candidate>, Failure>, issued: nat)
    requires !intent.collection && WantsIssue(intent)
    requires Progress(pages, fold, intent, exact + fallbacks, limit, |exact|, candidates, alreadySeen)
    requires Coverage(fold, intent, candidates) == Ok(false)
    ensures IsSearch(pages, fold, intent, exact + fallbacks, limit, issued, result)
  {
    hide IsSearch, Progress, Found, Gathered, FirstByKey, KeysOf, Filter, Coverage, WantsIssue;
    ghost var queries := exact + fallbacks;
    NothingCovering(fold, intent, candidates);
    var extra, seen := [], alreadySeen;
    issued := |exact|;
    assert candidates + extra == candidates;
    while issued < |exact| + |fallbacks|
      invariant |exact| <= issued <= |queries|
      invariant Progress(pages, fold, intent, queries, limit, issued, candidates + extra, seen)
      invariant Coverage(fold, intent, candidates + extra) == Ok(false)
    {
      assert queries[issued] == fallbacks[issued - |exact|];
      var page := pages(fallbacks[issued - |exact|]);
      if page.Err? {
        ProgressFails(pages, fold, intent, queries, limit, issued, candidates + extra, seen);
        return Err(page.error), issued;
      }
      ghost var found, wasSeen, prior := candidates + extra, seen, Gathered(pages, queries[..issued]);
      ProgressFound(pages, fold, intent, queries, limit, issued, found, seen);
      ghost var wasExtra := extra;
      extra, seen := AppendSearchCandidates(page.value, extra, seen, prior);
      AppendedIsFound(prior, page.value, candidates, wasExtra);
      ProgressSteps(pages, fold, intent, queries, limit, issued, found, wasSeen, candidates + extra, seen);
      issued := issued + 1;
      FallbackCoverage(fold, intent, candidates, extra);
      var covered := Coverage(fold, intent, extra);
      if covered.Err? {
        CoverageFails(fold, intent, extra);
        ProgressAnswers(pages, fold, intent, queries, limit, issued, candidates + extra, seen);
        return Err(covered.error), issued;
      }
      if covered.value {
        break;
      }
    }
    ProgressAnswers(pages, fold, intent, queries, limit, issued, candidates + extra, seen);
    CoveringFirstAfterNone(fold, intent, candidates, extra);
    FallbackCoverage(fold, intent, candidates, extra);
    var covering := Filter(extra, Covering(fold, intent));
    var noncovering := Filter(extra, Missing(fold, intent));
    result := Ok(Take(covering + candidates + noncovering, limit));
  }

  lemma FallbackCoverage(fold: Folding, intent: Intent, candidates: seq<Candidate>, extra: seq<Candidate>)
    requires WantsIssue(intent) && Coverage(fold, intent, candidates) == Ok(false)
    ensures Coverage(fold, intent, candidates + extra) == Coverage(fold, intent, extra)
  {
    if candidates == [] {
      assert candidates + extra == extra;
    } else if extra == [] {
      assert candidates + extra == candidates;
    } else if exists c :: c in extra && Covers(fold, intent, c) {
      var c :| c in extra && Covers(fold, intent, c);
      assert c in candidates + extra;
    }
  }

  /** The arrangement is the stable partition and nothing else: covering candidates first,
      and each part in the order in which it was found. */
  lemma CoveringFirstIsTheStablePartition(fold: Folding, intent: Intent, found: seq<Candidate>,
                                          arranged: seq<Candidate>)
    ensures arranged == CoveringFirst(fold, intent, found) <==>
      && (forall i, j :: 0 <= i < j < |arranged| && Covers(fold, intent, arranged[j]) ==>
            Covers(fold, intent, arranged[i]))
      && Filter(arranged, Covering(fold, intent)) == Filter(found, Covering(fold, intent))
      && Filter(arranged, Missing(fold, intent)) == Filter(found, Missing(fold, intent))
  {
    hide Covers, Filter;
    var covers, misses := Covering(fold, intent), Missing(fold, intent);
    var a, b := Filter(found, covers), Filter(found, misses);
    FilterContents(found, covers);
    FilterContents(found, misses);
    FilterAppend(a, b, covers);
    FilterAppend(a, b, misses);
    FilterAll(a, covers);
    FilterNone(b, covers);
    FilterNone(a, misses);
    FilterAll(b, misses);
    assert a + [] == a && [] + b == b;
    if forall i, j :: 0 <= i < j < |arranged| && covers(arranged[j]) ==> covers(arranged[i]) {
      OrderedIsPartitioned(fold, intent, arranged);
    }
  }

  lemma {:induction false} OrderedIsPartitioned(fold: Folding, intent: Intent, arranged: seq<Candidate>)
    requires forall i, j :: 0 <= i < j < |arranged| && Covering(fold, intent)(arranged[j]) ==>
      Covering(fold, intent)(arranged[i])
    ensures arranged == Filter(arranged, Covering(fold, intent)) + Filter(arranged, Missing(fold, intent))
  {
    var covers, misses := Covering(fold, intent), Missing(fold, intent);
    hide Covers;
    if arranged != [] {
      var front, last := arranged[..|arranged| - 1], arranged[|arranged| - 1];
      OrderedIsPartitioned(fold, intent, front);
      if covers(last) {
        assert forall c :: c in front ==> covers(c);
        FilterNone(front, misses);
        FilterAll(front, covers);
      }
    }
  }

  // ----- Main results -----

  /** A search for an issue stops after the first query that shows a covering candidate, and
      one for a collection after the first that fills the limit; any other asks everything. */
  lemma SearchStopsExactly(pages: Pages, fold: Folding, intent: Intent, queries: seq<string>, limit: nat, issued: nat,
                           result: Result<seq<Candidate>, Failure>)
    requires intent.collection || intent.issueNumber.None? || intent.issueNumber.value == ""
      || IssueNumbers.Normalize(intent.issueNumber.value).Some?
    ensures IsSearch(pages, fold, intent, queries, limit, issued, result) && result.Ok? ==>
      && issued <= |queries|
      && (forall n :: 0 < n < issued ==> !IsEnough(fold, intent, limit, Found(pages, queries[..n])))
      && (issued < |queries| ==> issued > 0 && IsEnough(fold, intent, limit, Found(pages, queries[..issued])))
      && var found := Found(pages, queries[..issued]);
         result.value == Take(if intent.collection then found else CoveringFirst(fold, intent, found), limit)
  {
    hide Covers, CoveringFirst, Found, IssueNumbers.Normalize;
    NothingFound(pages);
    assert queries[..0] == [];
    if IsSearch(pages, fold, intent, queries, limit, issued, result) && result.Ok? {
      forall n | 0 < n < issued ensures !IsEnough(fold, intent, limit, Found(pages, queries[..n])) {
        assert !StopsAfter(pages, fold, intent, queries, limit, n);
        if !intent.collection {
          NothingCovering(fold, intent, Found(pages, queries[..n]));
        }
      }
    }
  }

  /** Whether candidates answer the intent: as many as asked for a collection, and
      otherwise one that covers the issue. */
  ghost predicate IsEnough(fold: Folding, intent: Intent, limit: nat, found: seq<Candidate>) {
    if intent.collection then |found| >= limit
    else intent.issueNumber.Some? && exists c :: c in found && Covers(fold, intent, c)
  }

  /** The description of a search leaves nothing open. */
  lemma SearchIsDetermined(pages: Pages, fold: Folding, intent: Intent, queries: seq<string>, limit: nat,
                           a: nat, b: nat, x: Result<seq<Candidate>, Failure>, y: Result<seq<Candidate>, Failure>)
    ensures IsSearch(pages, fold, intent, queries, limit, a, x)
            && IsSearch(pages, fold, intent, queries, limit, b, y) ==>
      a == b && x == y
  {
    hide StopsAfter, Answer;
  }

  lemma {:induction false} GatheredGrows(pages: Pages, queries: seq<string>, n: nat)
    requires n <= |queries|
    ensures Found(pages, queries[..n]) <= Found(pages, queries)
  {
    if n == |queries| {
      assert queries[..n] == queries;
    } else {
      var front := queries[..|queries| - 1];
      assert front[..n] == queries[..n];
      GatheredGrows(pages, front, n);
      FirstByKeyGrows(Gathered(pages, front), PageCandidates(pages(queries[|queries| - 1])), Id);
    }
  }

  /** For a collection, stopping early gives the answer that running every query and
      truncating would give. */
  lemma StoppingEarlyLosesNothing(pages: Pages, fold: Folding, intent: Intent, queries: seq<string>, limit: nat,
                                  issued: nat, result: Result<seq<Candidate>, Failure>)
    requires intent.collection && IsSearch(pages, fold, intent, queries, limit, issued, result)
    requires forall query :: query in queries ==> pages(query).Ok?
    ensures result == Ok(Take(Found(pages, queries), limit))
  {
    GatheredGrows(pages, queries, issued);
    assert issued == |queries| ==> queries[..issued] == queries;
    assert issued < |queries| ==> queries[issued] in queries;
    var found, all := Found(pages, queries[..issued]), Found(pages, queries);
    hide Found, Take;
    if |found| >= limit {
      TakePrefix(found, all, limit);
    }
  }

  /** Whatever the intent, the candidates returned have distinct identifiers, are no more
      than the limit, and come from the queries issued. */
  lemma AnswersAreDistinct(fold: Folding, intent: Intent, gathered: seq<Candidate>, limit: nat)
    requires Answer(fold, intent, FirstByKey(gathered, Id), limit).Ok?
    ensures var answer := Answer(fold, intent, FirstByKey(gathered, Id), limit).value;
      && |answer| <= limit
      && (forall c :: c in answer ==> c in gathered)
      && forall i, j :: 0 <= i < j < |answer| ==> answer[i].id != answer[j].id
  {
    hide FirstByKey, Coverage, CoveringFirst;
    var found := FirstByKey(gathered, Id);
    FirstByKeyDistinct(gathered, Id);
    assert forall i, j :: 0 <= i < j < |found| ==> Id(found[i]) != Id(found[j]);
    PartitionIsDistinct(fold, intent, found);
  }

  ghost predicate DistinctIds(candidates: seq<Candidate>) {
    forall i, j :: 0 <= i < j < |candidates| ==> candidates[i].id != candidates[j].id
  }

  lemma {:induction false} FilterIsDistinct(candidates: seq<Candidate>, keep: Candidate -> bool)
    requires DistinctIds(candidates)
    ensures DistinctIds(Filter(candidates, keep))
  {
    if candidates != [] {
      var front := candidates[..|candidates| - 1];
      FilterIsDistinct(front, keep);
      FilterContents(front, keep);
      assert forall i :: 0 <= i < |Filter(front, keep)| ==> Filter(front, keep)[i] in front;
    }
  }

  lemma PartitionIsDistinct(fold: Folding, intent: Intent, found: seq<Candidate>)
    requires DistinctIds(found)
    ensures DistinctIds(CoveringFirst(fold, intent, found))
    ensures forall c :: c in CoveringFirst(fold, intent, found) <==> c in found
  {
    var covers, misses := Covering(fold, intent), Missing(fold, intent);
    FilterIsDistinct(found, covers);
    FilterIsDistinct(found, misses);
    FilterContents(found, covers);
    FilterContents(found, misses);
    var a, b := Filter(found, covers), Filter(found, misses);
    forall i, j | 0 <= i < |a| && 0 <= j < |b| ensures a[i].id != b[j].id {
      assert a[i] in a && b[j] in b;
      assert a[i] in found && b[j] in found;
    }
  }

  /** When any query would find a candidate that covers the request, the search stops
      on one and answers it first, however many others were found before. */
  lemma CoveringCandidateLeads(pages: Pages, fold: Folding, intent: Intent, queries: seq<string>, limit: nat,
                               issued: nat, result: Result<seq<Candidate>, Failure>)
    requires !intent.collection && WantsIssue(intent) && limit > 0
    ensures IsSearch(pages, fold, intent, queries, limit, issued, result) && result.Ok?
            && SomeCovers(fold, intent, Found(pages, queries)) ==>
      result.value != [] && Covers(fold, intent, result.value[0])
  {
    if IsSearch(pages, fold, intent, queries, limit, issued, result) && result.Ok?
       && SomeCovers(fold, intent, Found(pages, queries))
    {
      CoverageStops(pages, fold, intent, queries, limit, issued, result);
      hide IsSearch, Found, Covers;
      SomeCoveringLeads(fold, intent, Found(pages, queries[..issued]));
    }
  }

  lemma CoverageStops(pages: Pages, fold: Folding, intent: Intent, queries: seq<string>, limit: nat, issued: nat,
                      result: Result<seq<Candidate>, Failure>)
    requires !intent.collection && WantsIssue(intent) && issued <= |queries|
    ensures var found := Found(pages, queries[..issued]);
      IsSearch(pages, fold, intent, queries, limit, issued, result) && result.Ok?
      && SomeCovers(fold, intent, Found(pages, queries)) ==>
        SomeCovers(fold, intent, found) && result == Ok(Take(CoveringFirst(fold, intent, found), limit))
  {
    hide Found, Covers, CoveringFirst;
    assert issued == |queries| ==> queries[..issued] == queries;
  }

  lemma SomeCoveringLeads(fold: Folding, intent: Intent, found: seq<Candidate>)
    requires SomeCovers(fold, intent, found)
    ensures CoveringFirst(fold, intent, found) != [] && Covers(fold, intent, CoveringFirst(fold, intent, found)[0])
  {
    FilterContents(found, Covering(fold, intent));
    var c :| c in found && Covers(fold, intent, c);
    assert c in Filter(found, Covering(fold, intent));
    assert Filter(found, Covering(fold, intent))[0] in Filter(found, Covering(fold, intent));
  }

  /** An issue number the normalizer cannot read fails a search exactly when some query
      finds a candidate. */
  lemma UnreadableIssueFailsExactly(pages: Pages, fold: Folding, intent: Intent, queries: seq<string>, limit: nat,
                                    issued: nat, result: Result<seq<Candidate>, Failure>)
    requires !intent.collection && WantsIssue(intent) && !ReadableIssue(intent)
    requires forall query :: query in queries ==> pages(query).Ok?
    ensures IsSearch(pages, fold, intent, queries, limit, issued, result) ==>
      result == if Found(pages, queries) == [] then Ok([]) else Err(UnreadableIssue)
  {
    if IsSearch(pages, fold, intent, queries, limit, issued, result) {
      GatheredGrows(pages, queries, issued);
      assert issued == |queries| ==> queries[..issued] == queries;
      assert issued < |queries| ==> queries[issued] in queries;
      hide Found;
    }
  }

  /** A pack whose title and year fit covers an issue exactly when its range is one the
      source expands, the issue lies in it without a suffix, and a fraction, if the
      request writes one, is zero behind unpadded digits. */
  lemma PackCoversItsRange(fold: Folding, intent: Intent, pack: Candidate, start: string, end: string,
                           issue: IssueNumbers.Issue)
    requires IssueNumbers.WellFormed(issue)
    requires intent.issueNumber == Some(IssueNumbers.Text(issue))
    requires pack.parsed.issueNumbers == IssueNumbers.ExpandRange(start, end)
    ensures Covers(fold, intent, pack) <==>
      && issue.suffix == "" && Decimals.IsNumeral(start) && Decimals.IsNumeral(end)
      && Decimals.Parse(end) < Decimals.Parse(start) + 100
      && Decimals.Parse(start) <= Decimals.Parse(issue.whole) <= Decimals.Parse(end)
      && (issue.fraction.Some? ==>
            IssueNumbers.TrimZeros(issue.fraction.value) == "" && Decimals.IsCanonical(issue.whole))
      && fold(pack.parsed.seriesTitle) != ""
      && (exists known :: known in intent.titles && fold(known) == fold(pack.parsed.seriesTitle))
      && ((intent.releaseYear.None? && intent.seriesYear.None? && intent.year.None?)
          || pack.parsed.year.None?
          || pack.parsed.year == intent.releaseYear
          || pack.parsed.year == intent.seriesYear
          || pack.parsed.year == intent.year)
  {
    IssueNumbers.RangeCoverageIsExact(start, end, issue);
    FitsYearsExactly(intent, pack.parsed.year);
  }

  lemma FitsYearsExactly(intent: Intent, year: Option<int>)
    ensures FitsYears(intent, year) <==>
      || (intent.releaseYear.None? && intent.seriesYear.None? && intent.year.None?)
      || year.None? || year == intent.releaseYear || year == intent.seriesYear || year == intent.year
  {
    var years := ExpectedYears(intent);
    assert intent.releaseYear.Some? ==> intent.releaseYear.value in years;
    assert intent.seriesYear.Some? ==> intent.seriesYear.value in years;
    assert intent.year.Some? ==> intent.year.value in years;
  }

  /** A search whose one page holds one candidate, answered from it. */
  lemma OnePageSearch(pages: Pages, fold: Folding, intent: Intent, candidate: Candidate)
    requires !intent.collection && pages("q") == Ok([candidate])
    ensures IsSearch(pages, fold, intent, ["q"], 1, 1, Answer(fold, intent, [candidate], 1))
  {
    OnePageFound(pages, candidate);
    hide Found, Covers, Answer;
    assert ["q"][..0] == [] && ["q"][..1] == ["q"];
  }

  lemma OnePageFound(pages: Pages, candidate: Candidate)
    requires pages("q") == Ok([candidate])
    ensures Found(pages, []) == [] && Found(pages, ["q"]) == [candidate]
  {
    assert ["q"][..0] == [] && [] + [candidate] == [candidate];
    FirstByKeyStep([], candidate, Id);
  }

  function IssueIntent(issueNumber: string): Intent {
    Intent(false, Some(issueNumber), [], None, None, None)
  }

  /** A search for the issue "Annual" fails on the first candidate; one for "-1" does not. */
  lemma AnnualIsUnreadable(candidate: Candidate, fold: Folding)
    ensures IsSearch(_ => Ok([candidate]), fold, IssueIntent("Annual"), ["q"], 1, 1, Err(UnreadableIssue))
    ensures IsSearch(_ => Ok([candidate]), fold, IssueIntent("-1"), ["q"], 1, 1, Ok([candidate]))
  {
    hide IsSearch, IssueNumbers.Normalize;
    IssueNumbers.SomeIssueTexts();
    OnePageSearch(_ => Ok([candidate]), fold, IssueIntent("Annual"), candidate);
    OnePageSearch(_ => Ok([candidate]), fold, IssueIntent("-1"), candidate);
    assert Coverage(fold, IssueIntent("-1"), [candidate]) == Ok(false);
    NothingCovering(fold, IssueIntent("-1"), [candidate]);
  }
}
