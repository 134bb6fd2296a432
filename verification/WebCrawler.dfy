/**
 The crawl of `WebConnector.list_documents`: a first-in first-out queue of pages, each
 with the seed it descends from and the link budget it still has.
 */
module WebCrawler {
  import opened Wrappers
  import opened Text

  type Url = string

  const MAX_URLS: nat := 200

  /** The world as the crawl sees it; every page answers the same way each time it is asked. */
  datatype Web = Web(
    passes: Url -> bool,              // include and exclude patterns
    fetchOk: Url -> bool,             // the page is served with a success status
    links: Url -> seq<Url>,           // absolute links on the page, in the order the set yields them
    netloc: Url -> Option<string>,    // None when the URL cannot be parsed
    text: Url -> string,              // extracted article text
    pageTitle: Url -> string,         // title from the page metadata, or empty
    hash: string -> string)

  datatype Doc = Doc(externalId: Url, title: string, contentHash: string)

  datatype Entry = Entry(url: Url, origin: Url, depth: int)

  // ---------------------------------------------------------------- URL helpers

  function NormalizeUrl(url: string): Url {
    var u := Strip(url);
    if u != "" && !StartsWith(u, "http://") && !StartsWith(u, "https://") then "https://" + u else u
  }

  function SeedUrl(seed: string): Url {
    RStripChar(NormalizeUrl(seed), '/')
  }

  function SeedUrls(seedUrls: seq<string>): seq<Url> {
    seq(|seedUrls|, i requires 0 <= i < |seedUrls| => SeedUrl(seedUrls[i]))
  }

  predicate SameDomain(web: Web, base: Url, candidate: Url) {
    && web.netloc(base).Some?
    && web.netloc(candidate).Some?
    && web.netloc(base) == web.netloc(candidate)
  }

  predicate HasContent(web: Web, url: Url) {
    Strip(web.text(url)) != ""
  }

  function LastSegment(url: Url): string {
    if url == "" || url[|url| - 1] == '/' then "" else LastSegment(url[..|url| - 1]) + [url[|url| - 1]]
  }

  function Describe(web: Web, url: Url): Doc {
    var title :=
      if web.pageTitle(url) != "" then web.pageTitle(url)
      else if LastSegment(url) != "" then LastSegment(url)
      else url;
    Doc(url, title, web.hash(web.text(url)))
  }

  /** Entries that a fetched page adds to the queue. */
  function Follow(web: Web, visited: set<Url>, e: Entry, links: seq<Url>): (es: seq<Entry>)
    ensures forall x :: x in es ==>
      && x.url in links && x.url !in visited && SameDomain(web, e.origin, x.url)
      && x.origin == e.origin && x.depth == e.depth - 1
    ensures forall l :: l in links && l !in visited && SameDomain(web, e.origin, l) ==>
      Entry(l, e.origin, e.depth - 1) in es
  {
    if links == [] then []
    else
      var l := links[|links| - 1];
      Follow(web, visited, e, links[..|links| - 1])
      + if l !in visited && SameDomain(web, e.origin, l) then [Entry(l, e.origin, e.depth - 1)] else []
  }

  lemma {:induction false} RStripCharCuts(s: string, c: char)
    ensures RStripChar(s, c) <= s && (RStripChar(s, c) == "" || RStripChar(s, c)[|RStripChar(s, c)| - 1] != c)
    ensures forall i :: |RStripChar(s, c)| <= i < |s| ==> s[i] == c
  {
    if s != "" && s[|s| - 1] == c {
      RStripCharCuts(s[..|s| - 1], c);
    }
  }

  predicate HasScheme(s: string) {
    (|s| >= 7 && s[..7] == "http://") || (|s| >= 8 && s[..8] == "https://")
  }

  /** A seed is stripped and given a scheme if it has none; then its slashes at the end go, and nothing else. */
  lemma SeedUrlExact(seed: string)
    ensures var full := if Strip(seed) == "" || HasScheme(Strip(seed)) then Strip(seed) else "https://" + Strip(seed);
      && SeedUrl(seed) <= full && (SeedUrl(seed) == "" || SeedUrl(seed)[|SeedUrl(seed)| - 1] != '/')
      && forall i :: |SeedUrl(seed)| <= i < |full| ==> full[i] == '/'
  {
    RStripCharCuts(NormalizeUrl(seed), '/');
    hide Strip, RStripChar;
  }

  lemma {:induction false} LastSegmentExact(url: Url)
    ensures |LastSegment(url)| <= |url| && url[|url| - |LastSegment(url)|..] == LastSegment(url)
    ensures '/' !in LastSegment(url)
    ensures |LastSegment(url)| == |url| || url[|url| - |LastSegment(url)| - 1] == '/'
  {
    if url != "" && url[|url| - 1] != '/' {
      LastSegmentExact(url[..|url| - 1]);
    }
  }

  /** A page is titled by its metadata, or else by what follows the last slash of its URL, or else by its URL. */
  lemma TitleExact(web: Web, url: Url)
    ensures web.pageTitle(url) != "" ==> Describe(web, url).title == web.pageTitle(url)
    ensures web.pageTitle(url) == "" && url != "" && url[|url| - 1] != '/' ==>
      var title := Describe(web, url).title;
      && 0 < |title| <= |url| && url[|url| - |title|..] == title && '/' !in title
      && (|title| == |url| || url[|url| - |title| - 1] == '/')
    ensures web.pageTitle(url) == "" && (url == "" || url[|url| - 1] == '/') ==> Describe(web, url).title == url
  {
    LastSegmentExact(url);
  }

  // ---------------------------------------------------------------- what the crawl should find

  /** One followed link on a walk that started at `origin`. */
  predicate Step(web: Web, origin: Url, page: Url, link: Url) {
    web.passes(page) && web.fetchOk(page) && link in web.links(page) && SameDomain(web, origin, link)
  }

  /** A walk along followed links; all links are compared with the domain of the walk's first page. */
  ghost predicate IsRoute(web: Web, p: seq<Url>) {
    p != [] && forall i :: 0 <= i < |p| - 1 ==> Step(web, p[0], p[i], p[i + 1])
  }

  /** `url` is exactly `hops` links from some seed along some route. */
  ghost predicate AtHops(web: Web, seeds: seq<Url>, url: Url, hops: int) {
    exists p :: IsRoute(web, p) && p[0] in seeds && p[|p| - 1] == url && |p| - 1 == hops
  }

  ghost predicate Reachable(web: Web, seeds: seq<Url>, url: Url, maxHops: int) {
    exists hops :: hops <= maxHops && AtHops(web, seeds, url, hops)
  }

  /** `hops` is the length of the shortest route to `url`. */
  ghost predicate IsDistance(web: Web, seeds: seq<Url>, url: Url, hops: int) {
    && AtHops(web, seeds, url, hops)
    && forall k :: AtHops(web, seeds, url, k) ==> hops <= k
  }

  function LinkBudget(crawlDepth: int): nat {
    if crawlDepth < 0 then 0 else crawlDepth
  }

  // ---------------------------------------------------------------- invariant of the loop

  /** Depth budgets never increase along the queue, and span at most two levels. */
  ghost predicate Levelled(queue: seq<Entry>) {
    && (forall i, j :: 0 <= i < j < |queue| ==> queue[j].depth <= queue[i].depth)
    && (forall i, j :: 0 <= i < |queue| && 0 <= j < |queue| ==> queue[i].depth <= queue[j].depth + 1)
  }

  ghost predicate EntryOk(web: Web, seeds: seq<Url>, depth: int, e: Entry) {
    && (e.url == e.origin || SameDomain(web, e.origin, e.url))
    && AtOriginHops(web, seeds, e.origin, e.url, depth - e.depth)
    && depth - e.depth <= LinkBudget(depth)
  }

  ghost predicate AtOriginHops(web: Web, seeds: seq<Url>, origin: Url, url: Url, hops: int) {
    origin in seeds && exists p :: IsRoute(web, p) && p[0] == origin && p[|p| - 1] == url && |p| - 1 == hops
  }

  ghost predicate Queued(queue: seq<Entry>, url: Url, depth: int) {
    exists e :: e in queue && e.url == url && depth <= e.depth
  }

  /** `url` was visited with budget at least `depth`, or waits in the queue with one. */
  ghost predicate Covered(queue: seq<Entry>, budget: map<Url, int>, url: Url, depth: int) {
    (url in budget && depth <= budget[url]) || Queued(queue, url, depth)
  }

  ghost predicate LinksCovered(web: Web, queue: seq<Entry>, budget: map<Url, int>, url: Url)
    requires url in budget
  {
    web.fetchOk(url) && 0 < budget[url] ==>
      forall l :: l in web.links(url) && SameDomain(web, url, l) && web.passes(l) ==>
        Covered(queue, budget, l, budget[url] - 1)
  }

  ghost predicate Inv(web: Web, seeds: seq<Url>, depth: int, queue: seq<Entry>, budget: map<Url, int>) {
    && Levelled(queue)
    && (forall e :: e in queue ==> EntryOk(web, seeds, depth, e))
    && (forall u :: u in budget ==>
          web.passes(u) && AtHops(web, seeds, u, depth - budget[u]) && depth - budget[u] <= LinkBudget(depth))
    && (forall u, e :: u in budget && e in queue ==> e.depth <= budget[u])
    && (forall u :: u in budget ==> LinksCovered(web, queue, budget, u))
    && (forall s :: s in seeds && web.passes(s) ==> Covered(queue, budget, s, depth))
  }

  // ---------------------------------------------------------------- preservation

  lemma RouteDomain(web: Web, p: seq<Url>, i: nat)
    requires IsRoute(web, p) && i < |p|
    ensures p[i] == p[0] || SameDomain(web, p[0], p[i])
  {
    if i > 0 {
      assert Step(web, p[0], p[i - 1], p[i]);
    }
  }

  lemma HeadIsReached(web: Web, seeds: seq<Url>, depth: int, queue: seq<Entry>)
    requires queue != [] && EntryOk(web, seeds, depth, queue[0])
    ensures AtHops(web, seeds, queue[0].url, depth - queue[0].depth)
    ensures depth - queue[0].depth <= LinkBudget(depth)
  {
  }

  lemma ExtendRoute(web: Web, seeds: seq<Url>, origin: Url, url: Url, link: Url, hops: int)
    requires AtOriginHops(web, seeds, origin, url, hops)
    requires Step(web, origin, url, link)
    ensures AtOriginHops(web, seeds, origin, link, hops + 1)
  {
    var p :| IsRoute(web, p) && p[0] == origin && p[|p| - 1] == url && |p| - 1 == hops;
    var q := p + [link];
    forall i | 0 <= i < |q| - 1
      ensures Step(web, q[0], q[i], q[i + 1])
    {
      if i < |p| - 1 {
        assert Step(web, p[0], p[i], p[i + 1]);
      }
    }
    assert IsRoute(web, q);
  }

  lemma InitInv(web: Web, seeds: seq<Url>, depth: int, queue: seq<Entry>)
    requires |queue| == |seeds| && forall i :: 0 <= i < |seeds| ==> queue[i] == Entry(seeds[i], seeds[i], depth)
    ensures Inv(web, seeds, depth, queue, map[])
  {
    forall e | e in queue
      ensures EntryOk(web, seeds, depth, e)
    {
      assert IsRoute(web, [e.url]) && [e.url][0] == e.origin && [e.url][|[e.url]| - 1] == e.url;
    }
    forall s | s in seeds && web.passes(s)
      ensures Covered(queue, map[], s, depth)
    {
      var i :| 0 <= i < |seeds| && seeds[i] == s;
      assert queue[i] in queue;
    }
  }

  /** A popped entry is dropped when its page was seen before or fails the patterns. */
  lemma SkipKeepsInv(web: Web, seeds: seq<Url>, depth: int, queue: seq<Entry>, budget: map<Url, int>)
    requires Inv(web, seeds, depth, queue, budget) && queue != []
    requires queue[0].url in budget || !web.passes(queue[0].url)
    ensures Inv(web, seeds, depth, queue[1..], budget)
  {
    forall url, d | Covered(queue, budget, url, d) && web.passes(url)
      ensures Covered(queue[1..], budget, url, d)
    {
      CoveredAfterPop(web, seeds, depth, queue, budget, url, d);
    }
  }

  lemma CoveredAfterPop(web: Web, seeds: seq<Url>, depth: int, queue: seq<Entry>, budget: map<Url, int>, url: Url,
                        d: int)
    requires Inv(web, seeds, depth, queue, budget) && queue != []
    requires queue[0].url in budget || !web.passes(queue[0].url)
    requires Covered(queue, budget, url, d) && web.passes(url)
    ensures Covered(queue[1..], budget, url, d)
  {
  }

  /** What a visit adds to the queue when its page was popped as `e`. */
  function Added(web: Web, visited: set<Url>, e: Entry): seq<Entry> {
    if web.fetchOk(e.url) && e.depth > 0 then Follow(web, visited, e, web.links(e.url)) else []
  }

  lemma LevelledAfterVisit(web: Web, queue: seq<Entry>, visited: set<Url>)
    requires Levelled(queue) && queue != []
    ensures Levelled(queue[1..] + Added(web, visited, queue[0]))
    ensures forall x :: x in queue[1..] + Added(web, visited, queue[0]) ==> x.depth <= queue[0].depth
  {
  }

  lemma EntriesAfterVisit(web: Web, seeds: seq<Url>, depth: int, queue: seq<Entry>, visited: set<Url>, x: Entry)
    requires forall e :: e in queue ==> EntryOk(web, seeds, depth, e)
    requires queue != [] && web.passes(queue[0].url)
    requires x in queue[1..] + Added(web, visited, queue[0])
    ensures EntryOk(web, seeds, depth, x)
  {
    var e := queue[0];
    if x in Added(web, visited, e) {
      assert EntryOk(web, seeds, depth, e);
      ExtendRoute(web, seeds, e.origin, e.url, x.url, depth - e.depth);
    } else {
      assert x in queue;
    }
  }

  /** A visited page is recorded with the budget it was popped with. */
  lemma VisitKeepsInv(web: Web, seeds: seq<Url>, depth: int, queue: seq<Entry>, queue': seq<Entry>,
                      budget: map<Url, int>)
    requires Inv(web, seeds, depth, queue, budget) && queue != []
    requires queue[0].url !in budget && web.passes(queue[0].url)
    requires queue' == queue[1..] + Added(web, budget.Keys + {queue[0].url}, queue[0])
    ensures Inv(web, seeds, depth, queue', budget[queue[0].url := queue[0].depth])
  {
    hide EntryOk, Covered, LinksCovered;
    var e, added := queue[0], Added(web, budget.Keys + {queue[0].url}, queue[0]);
    var budget' := budget[e.url := e.depth];
    HeadIsReached(web, seeds, depth, queue);
    LevelledAfterVisit(web, queue, budget'.Keys);
    assert budget'.Keys == budget.Keys + {e.url};
    forall x | x in queue'
      ensures EntryOk(web, seeds, depth, x)
    {
      EntriesAfterVisit(web, seeds, depth, queue, budget'.Keys, x);
    }
    forall u, x | u in budget' && x in queue'
      ensures x.depth <= budget'[u]
    {
      assert x.depth <= e.depth;
    }
    CoverageAfterVisit(web, seeds, depth, queue, budget, added);
  }

  lemma CoverageAfterVisit(web: Web, seeds: seq<Url>, depth: int, queue: seq<Entry>, budget: map<Url, int>,
                           added: seq<Entry>)
    requires Inv(web, seeds, depth, queue, budget) && queue != []
    requires queue[0].url !in budget && web.passes(queue[0].url)
    requires added == Added(web, budget.Keys + {queue[0].url}, queue[0])
    ensures var queue', budget' := queue[1..] + added, budget[queue[0].url := queue[0].depth];
      && (forall u :: u in budget' ==> LinksCovered(web, queue', budget', u))
      && (forall s :: s in seeds && web.passes(s) ==> Covered(queue', budget', s, depth))
  {
    var e := queue[0];
    var queue' := queue[1..] + added;
    var budget' := budget[e.url := e.depth];
    assert e in queue && EntryOk(web, seeds, depth, e);
    assert budget'.Keys == budget.Keys + {e.url};
    forall s | s in seeds && web.passes(s)
      ensures Covered(queue', budget', s, depth)
    {
      StillCovered(queue, budget, added, s, depth);
    }
    forall u | u in budget'
      ensures LinksCovered(web, queue', budget', u)
    {
      if u == e.url {
        NewLinksCovered(web, e, queue', budget', added);
      } else {
        OldLinksCovered(web, queue, budget, added, u);
      }
    }
  }

  lemma OldLinksCovered(web: Web, queue: seq<Entry>, budget: map<Url, int>, added: seq<Entry>, u: Url)
    requires queue != [] && queue[0].url !in budget
    requires u in budget && LinksCovered(web, queue, budget, u)
    ensures LinksCovered(web, queue[1..] + added, budget[queue[0].url := queue[0].depth], u)
  {
  }

  lemma StillCovered(queue: seq<Entry>, budget: map<Url, int>, added: seq<Entry>, url: Url, d: int)
    requires queue != [] && queue[0].url !in budget
    requires Covered(queue, budget, url, d)
    ensures Covered(queue[1..] + added, budget[queue[0].url := queue[0].depth], url, d)
  {
  }

  lemma NewLinksCovered(web: Web, e: Entry, queue: seq<Entry>, budget: map<Url, int>, added: seq<Entry>)
    requires e.url in budget && budget[e.url] == e.depth
    requires forall u :: u in budget ==> e.depth <= budget[u]
    requires e.url == e.origin || SameDomain(web, e.origin, e.url)
    requires forall x :: x in added ==> x in queue
    requires added == Added(web, budget.Keys, e)
    ensures LinksCovered(web, queue, budget, e.url)
  {
  }

  // ---------------------------------------------------------------- what the invariant yields

  /**
   Every route either has been visited all along, each page with at least the budget the
   route leaves it, or some queued entry has at least the budget left at its end.
   */
  lemma RouteFrontier(web: Web, seeds: seq<Url>, depth: int, queue: seq<Entry>, budget: map<Url, int>, p: seq<Url>)
    requires Inv(web, seeds, depth, queue, budget)
    requires IsRoute(web, p) && p[0] in seeds && web.passes(p[|p| - 1])
    requires |p| - 1 <= LinkBudget(depth)
    ensures
      || (p[|p| - 1] in budget && depth - (|p| - 1) <= budget[p[|p| - 1]])
      || (exists e :: e in queue && depth - (|p| - 1) <= e.depth)
    decreases |p|
  {
    var n := |p| - 1;
    if n == 0 {
      assert Covered(queue, budget, p[0], depth);
    } else {
      var q := p[..n];
      assert Step(web, p[0], p[n - 1], p[n]);
      forall i | 0 <= i < |q| - 1
        ensures Step(web, q[0], q[i], q[i + 1])
      {
        assert Step(web, p[0], p[i], p[i + 1]);
      }
      RouteFrontier(web, seeds, depth, queue, budget, q);
      var u := q[n - 1];
      if u in budget && depth - (n - 1) <= budget[u] {
        RouteDomain(web, p, n - 1);
        assert LinksCovered(web, queue, budget, u);
        assert Covered(queue, budget, p[n], budget[u] - 1);
      }
    }
  }

  /** A visited page was first reached along a shortest route, so with the largest remaining budget. */
  lemma FirstVisitIsNearest(web: Web, seeds: seq<Url>, depth: int, queue: seq<Entry>, budget: map<Url, int>, u: Url)
    requires Inv(web, seeds, depth, queue, budget) && u in budget
    ensures IsDistance(web, seeds, u, depth - budget[u])
  {
    forall k | AtHops(web, seeds, u, k)
      ensures depth - budget[u] <= k
    {
      if k < depth - budget[u] {
        var p :| IsRoute(web, p) && p[0] in seeds && p[|p| - 1] == u && |p| - 1 == k;
        RouteFrontier(web, seeds, depth, queue, budget, p);
      }
    }
  }

  /** Nothing that is left out is nearer to the seeds than a page that was visited. */
  lemma NothingNearerLeftOut(web: Web, seeds: seq<Url>, depth: int, queue: seq<Entry>, budget: map<Url, int>, u: Url,
                             k: int, v: Url)
    requires Inv(web, seeds, depth, queue, budget)
    requires v in budget && u !in budget && web.passes(u) && AtHops(web, seeds, u, k) && k <= LinkBudget(depth)
    ensures queue != [] && depth - budget[v] <= k
  {
    var p :| IsRoute(web, p) && p[0] in seeds && p[|p| - 1] == u && |p| - 1 == k;
    RouteFrontier(web, seeds, depth, queue, budget, p);
  }

  lemma DrainedMeansComplete(web: Web, seeds: seq<Url>, depth: int, budget: map<Url, int>, u: Url)
    requires Inv(web, seeds, depth, [], budget)
    ensures u in budget <==> web.passes(u) && Reachable(web, seeds, u, LinkBudget(depth))
  {
    if u in budget {
      assert AtHops(web, seeds, u, depth - budget[u]);
    }
    if web.passes(u) && Reachable(web, seeds, u, LinkBudget(depth)) {
      var k :| k <= LinkBudget(depth) && AtHops(web, seeds, u, k);
      var p :| IsRoute(web, p) && p[0] in seeds && p[|p| - 1] == u && |p| - 1 == k;
      RouteFrontier(web, seeds, depth, [], budget, p);
    }
  }

  // ---------------------------------------------------------------- the crawl

  lemma FollowNext(web: Web, visited: set<Url>, e: Entry, links: seq<Url>, i: nat)
    requires i < |links|
    ensures Follow(web, visited, e, links[..i + 1]) ==
      Follow(web, visited, e, links[..i])
      + if links[i] !in visited && SameDomain(web, e.origin, links[i])
        then [Entry(links[i], e.origin, e.depth - 1)] else []
  {
    assert links[..i + 1][..i] == links[..i];
  }

  method ExtractFollowed(web: Web, visited: set<Url>, e: Entry) returns (added: seq<Entry>)
    ensures added == Follow(web, visited, e, web.links(e.url))
  {
    added := [];
    var links := web.links(e.url);
    for i := 0 to |links|
      invariant added == Follow(web, visited, e, links[..i])
    {
      FollowNext(web, visited, e, links, i);
      if links[i] !in visited && SameDomain(web, e.origin, links[i]) {
        added := added + [Entry(links[i], e.origin, e.depth - 1)];
      }
    }
    assert links[..|links|] == links;
  }

  predicate Kept(web: Web, url: Url) {
    web.fetchOk(url) && HasContent(web, url)
  }

  ghost predicate Listed(web: Web, budget: map<Url, int>, d: Doc) {
    d.externalId in budget && Kept(web, d.externalId) && d == Describe(web, d.externalId)
  }

  /** The descriptors of exactly the visited pages that were served with content, nearest pages first. */
  ghost predicate Collected(web: Web, results: seq<Doc>, budget: map<Url, int>) {
    && (forall i :: 0 <= i < |results| ==> Listed(web, budget, results[i]))
    && (forall u :: u in budget && Kept(web, u) ==> Describe(web, u) in results)
    && (forall i, j :: 0 <= i < j < |results| ==> NearerFirst(budget, results[i].externalId, results[j].externalId))
  }

  ghost predicate NearerFirst(budget: map<Url, int>, first: Url, second: Url) {
    first != second && first in budget && second in budget && budget[second] <= budget[first]
  }

  lemma CollectVisit(web: Web, results: seq<Doc>, results': seq<Doc>, budget: map<Url, int>, e: Entry)
    requires Collected(web, results, budget)
    requires e.url !in budget && forall u :: u in budget ==> e.depth <= budget[u]
    requires results' == if Kept(web, e.url) then results + [Describe(web, e.url)] else results
    ensures Collected(web, results', budget[e.url := e.depth])
  {
  }

  method EnqueueSeeds(seedUrls: seq<string>, crawlDepth: int) returns (toVisit: seq<Entry>)
    ensures |toVisit| == |SeedUrls(seedUrls)|
    ensures forall i :: 0 <= i < |toVisit| ==>
      toVisit[i] == Entry(SeedUrls(seedUrls)[i], SeedUrls(seedUrls)[i], crawlDepth)
  {
    toVisit := [];
    for i := 0 to |seedUrls|
      invariant |toVisit| == i
      invariant forall j :: 0 <= j < i ==> toVisit[j] == Entry(SeedUrls(seedUrls)[j], SeedUrls(seedUrls)[j], crawlDepth)
    {
      var cleanSeed := SeedUrl(seedUrls[i]);
      toVisit := toVisit + [Entry(cleanSeed, cleanSeed, crawlDepth)];
      assert SeedUrls(seedUrls)[i] == cleanSeed;
    }
  }

  /** Fetches the page of `e`: keeps its descriptor if it has content, and queues its links if the budget allows. */
  method FetchPage(web: Web, visited: set<Url>, e: Entry, results: seq<Doc>, toVisit: seq<Entry>)
    returns (results': seq<Doc>, toVisit': seq<Entry>)
    ensures results' == if Kept(web, e.url) then results + [Describe(web, e.url)] else results
    ensures toVisit' == toVisit + Added(web, visited, e)
  {
    results', toVisit' := results, toVisit;
    if !web.fetchOk(e.url) {
      return;
    }
    if HasContent(web, e.url) {
      results' := results + [Describe(web, e.url)];
    }
    if e.depth > 0 {
      var more := ExtractFollowed(web, visited, e);
      toVisit' := toVisit + more;
    }
  }

  lemma VisitStep(web: Web, seeds: seq<Url>, depth: int, queue: seq<Entry>, queue': seq<Entry>,
                  results: seq<Doc>, results': seq<Doc>, budget: map<Url, int>)
    requires Inv(web, seeds, depth, queue, budget) && Collected(web, results, budget)
    requires queue != [] && queue[0].url !in budget && web.passes(queue[0].url)
    requires queue' == queue[1..] + Added(web, budget.Keys + {queue[0].url}, queue[0])
    requires results' == if Kept(web, queue[0].url) then results + [Describe(web, queue[0].url)] else results
    ensures Inv(web, seeds, depth, queue', budget[queue[0].url := queue[0].depth])
    ensures Collected(web, results', budget[queue[0].url := queue[0].depth])
  {
    hide Collected, Added, Kept, Describe, LinksCovered, Covered, EntryOk, AtHops;
    assert queue[0] in queue;
    CollectVisit(web, results, results', budget, queue[0]);
    VisitKeepsInv(web, seeds, depth, queue, queue', budget);
  }

  /** The loop that drains the queue, until it is empty or the page limit is reached. */
  method Crawl(web: Web, ghost seeds: seq<Url>, ghost depth: int, start: seq<Entry>)
    returns (results: seq<Doc>, visited: set<Url>, toVisit: seq<Entry>, ghost budget: map<Url, int>)
    requires Inv(web, seeds, depth, start, map[]) && Collected(web, [], map[])
    ensures |visited| <= MAX_URLS && (toVisit == [] || |visited| == MAX_URLS)
    ensures budget.Keys == visited
    ensures Inv(web, seeds, depth, toVisit, budget)
    ensures Collected(web, results, budget)
  {
    hide *;
    visited, toVisit, results, budget := {}, start, [], map[];
    while toVisit != [] && |visited| < MAX_URLS
      invariant |visited| <= MAX_URLS
      invariant budget.Keys == visited
      invariant Inv(web, seeds, depth, toVisit, budget)
      invariant Collected(web, results, budget)
      decreases MAX_URLS - |visited|, |toVisit|
    {
      var e := toVisit[0];
      ghost var queue, before := toVisit, results;
      toVisit := toVisit[1..];
      if e.url in visited || !web.passes(e.url) {
        SkipKeepsInv(web, seeds, depth, queue, budget);
      } else {
        visited := visited + {e.url};
        results, toVisit := FetchPage(web, visited, e, results, toVisit);
        VisitStep(web, seeds, depth, queue, toVisit, before, results, budget);
        budget := budget[e.url := e.depth];
      }
    }
  }

  /**
   `visited` holds the pages that were requested; `drained` says that the loop stopped because
   its queue was empty; `budget` records the links each page could still spend when it was visited.
   */
  method ListDocuments(web: Web, seedUrls: seq<string>, crawlDepth: int)
    returns (results: seq<Doc>, visited: set<Url>, drained: bool, ghost budget: map<Url, int>)
    ensures |visited| <= 200 && (drained || |visited| == 200)
    ensures drained ==>
      forall u :: u in visited <==> web.passes(u) && Reachable(web, SeedUrls(seedUrls), u, LinkBudget(crawlDepth))
    ensures forall u :: u in visited ==> web.passes(u) && Reachable(web, SeedUrls(seedUrls), u, LinkBudget(crawlDepth))
    ensures budget.Keys == visited
    ensures forall u :: u in visited ==> IsDistance(web, SeedUrls(seedUrls), u, crawlDepth - budget[u])
    ensures forall u, k, v ::
      (u !in visited && v in visited && web.passes(u)
       && AtHops(web, SeedUrls(seedUrls), u, k) && k <= LinkBudget(crawlDepth)) ==>
        crawlDepth - budget[v] <= k
    ensures forall u :: u in visited ==> OnSeedHost(web, SeedUrls(seedUrls), u)
    ensures drained ==> forall u, l :: u in visited && OnwardLink(web, u, l) && 0 < budget[u] ==> l in visited
    ensures forall i :: 0 <= i < |results| ==>
      results[i].externalId in visited && results[i].contentHash == web.hash(web.text(results[i].externalId))
    ensures forall u :: u in visited ==>
      ((exists i :: 0 <= i < |results| && results[i].externalId == u) <==> web.fetchOk(u) && Strip(web.text(u)) != "")
    ensures forall i, j :: 0 <= i < j < |results| ==> NearerFirst(budget, results[i].externalId, results[j].externalId)
  {
    var start := EnqueueSeeds(seedUrls, crawlDepth);
    ghost var seeds := SeedUrls(seedUrls);
    InitInv(web, seeds, crawlDepth, start);
    var toVisit;
    results, visited, toVisit, budget := Crawl(web, seeds, crawlDepth, start);
    drained := toVisit == [];
    CrawlOutcome(web, seeds, crawlDepth, toVisit, budget);
    HostsOutcome(web, seeds, crawlDepth, toVisit, budget);
    ResultsOutcome(web, results, budget);
    hide Inv, Collected, OnSeedHost, OnwardLink, Reachable, IsDistance, NearerFirst;
  }

  /** The URL is a seed, or on the host of one. */
  ghost predicate OnSeedHost(web: Web, seeds: seq<Url>, url: Url) {
    exists s :: s in seeds && (url == s || (web.netloc(url).Some? && web.netloc(url) == web.netloc(s)))
  }

  /** A served page links to a page of the same host that passes the patterns. */
  predicate OnwardLink(web: Web, page: Url, link: Url) {
    && web.fetchOk(page) && link in web.links(page) && web.passes(link)
    && web.netloc(link).Some? && web.netloc(link) == web.netloc(page)
  }

  /**
   What the loop invariant says about hosts: the crawl never leaves those of its seeds, and stays out of none of
   their pages.
   */
  lemma HostsOutcome(web: Web, seeds: seq<Url>, depth: int, queue: seq<Entry>, budget: map<Url, int>)
    requires Inv(web, seeds, depth, queue, budget)
    ensures forall u :: u in budget ==> OnSeedHost(web, seeds, u)
    ensures queue == [] ==> forall u, l :: u in budget && OnwardLink(web, u, l) && 0 < budget[u] ==> l in budget
  {
    forall u | u in budget
      ensures OnSeedHost(web, seeds, u)
    {
      var p :| IsRoute(web, p) && p[0] in seeds && p[|p| - 1] == u && |p| - 1 == depth - budget[u];
      RouteDomain(web, p, |p| - 1);
    }
    if queue == [] {
      forall u, l | u in budget && OnwardLink(web, u, l) && 0 < budget[u]
        ensures l in budget
      {
        assert LinksCovered(web, queue, budget, u);
        assert Covered(queue, budget, l, budget[u] - 1);
      }
    }
  }

  lemma ResultsOutcome(web: Web, results: seq<Doc>, budget: map<Url, int>)
    requires Collected(web, results, budget)
    ensures forall i :: 0 <= i < |results| ==>
      results[i].externalId in budget && results[i].contentHash == web.hash(web.text(results[i].externalId))
    ensures forall u :: u in budget ==>
      ((exists i :: 0 <= i < |results| && results[i].externalId == u) <==> web.fetchOk(u) && Strip(web.text(u)) != "")
    ensures forall i, j :: 0 <= i < j < |results| ==> NearerFirst(budget, results[i].externalId, results[j].externalId)
  {
    forall u | u in budget
      ensures (exists i :: 0 <= i < |results| && results[i].externalId == u)
        <==> web.fetchOk(u) && Strip(web.text(u)) != ""
    {
      if Kept(web, u) {
        assert Describe(web, u) in results;
      }
      if i :| 0 <= i < |results| && results[i].externalId == u {
        assert Listed(web, budget, results[i]);
      }
    }
    forall i | 0 <= i < |results|
      ensures results[i].externalId in budget && results[i].contentHash == web.hash(web.text(results[i].externalId))
    {
      assert Listed(web, budget, results[i]);
    }
  }

  /** Everything the loop invariant says about the pages once the loop stops. */
  lemma CrawlOutcome(web: Web, seeds: seq<Url>, depth: int, queue: seq<Entry>, budget: map<Url, int>)
    requires Inv(web, seeds, depth, queue, budget)
    ensures queue == [] ==> forall u :: u in budget <==> web.passes(u) && Reachable(web, seeds, u, LinkBudget(depth))
    ensures forall u :: u in budget ==>
      web.passes(u) && Reachable(web, seeds, u, LinkBudget(depth)) && IsDistance(web, seeds, u, depth - budget[u])
    ensures forall u, k, v ::
      (u !in budget && web.passes(u) && AtHops(web, seeds, u, k) && k <= LinkBudget(depth) && v in budget) ==>
      depth - budget[v] <= k
  {
    if queue == [] {
      forall u ensures u in budget <==> web.passes(u) && Reachable(web, seeds, u, LinkBudget(depth)) {
        DrainedMeansComplete(web, seeds, depth, budget, u);
      }
    }
    forall u | u in budget
      ensures web.passes(u) && Reachable(web, seeds, u, LinkBudget(depth))
      ensures IsDistance(web, seeds, u, depth - budget[u])
    {
      FirstVisitIsNearest(web, seeds, depth, queue, budget, u);
    }
    forall u, k, v | u !in budget && web.passes(u) && AtHops(web, seeds, u, k) && k <= LinkBudget(depth) && v in budget
      ensures depth - budget[v] <= k
    {
      NothingNearerLeftOut(web, seeds, depth, queue, budget, u, k, v);
    }
  }
}
