/** The crawl frontier of app.py (crawl_and_extract, lines 52-103): a bounded breadth-first
    traversal over a FIFO queue, a visited set, a page counter and the extracted-text results.

    The network and the HTML library are parameters of the crawl (a Config):
    - fetch(url) stands for requests.get, raise_for_status, BeautifulSoup, extract_content and
      the anchor scan: it yields the page text and the raw href values in document order, or
      None when any of these raises (a network or HTTP error, or extract_content reaching line
      41 with `main_content` unbound). All of that happens before the text is recorded.
    - join(base, href) stands for urljoin; None is a ValueError from it, which happens after the
      text was recorded and ends the link scan of that page early.
    - parse stands for urlparse (see Urls). */
module Crawl {
  import opened Wrappers
  import opened Text
  import opened Urls

  datatype Page = Page(content: string, hrefs: seq<string>)

  datatype Config = Config(
    allowed: seq<string>,
    maxPages: int,
    parse: Parser,
    fetch: string -> Option<Page>,
    join: (string, string) -> Option<string>)

  /** One entry of all_extracted_text, in insertion order. */
  datatype Record = Record(url: string, content: string)

  /** The loop state: queue, visited, pages_crawled and all_extracted_text. */
  datatype Frontier = Frontier(queue: seq<string>, visited: set<string>, pagesCrawled: nat, results: seq<Record>)

  /** Crashed(url): get_domain(url) at line 68, outside the try block, raised and the exception
      left crawl_and_extract. */
  datatype CrawlResult = Finished(frontier: Frontier) | Crashed(url: string)

  const ExcludedExtensions: seq<string> := [".pdf", ".zip", ".png", ".jpg"]

  /** `any(ext in url for ext in [...])`: a substring test, anywhere in the URL. */
  predicate HasExcludedExtension(url: string)
  {
    exists i :: 0 <= i < |ExcludedExtensions| && Contains(url, ExcludedExtensions[i])
  }

  /** The test a discovered absolute link must pass to be appended to the queue (lines 90-92). */
  predicate Enqueueable(cfg: Config, visited: set<string>, url: string)
  {
    && IsValidUrl(cfg.parse, url)
    && InAllowedDomains(cfg.parse, cfg.allowed, url)
    && url !in visited
    && !HasExcludedExtension(url)
  }

  /** The links the scan of one page appends, in order: every joined href that passes the test,
      up to the first href whose join raises. */
  function Discover(cfg: Config, base: string, visited: set<string>, hrefs: seq<string>): (links: seq<string>)
    ensures |links| <= |hrefs|
    ensures forall i :: 0 <= i < |links| ==> Enqueueable(cfg, visited, links[i])
  {
    if hrefs == [] then []
    else match cfg.join(base, hrefs[0])
      case None => []
      case Some(u) => (if Enqueueable(cfg, visited, u) then [u] else []) + Discover(cfg, base, visited, hrefs[1..])
  }

  function Start(seeds: seq<string>): Frontier
  {
    Frontier(seeds, {}, 0, [])
  }

  /** The page budget as a count: a max_pages of zero or less lets no page through. */
  function Budget(cfg: Config): nat
  {
    if cfg.maxPages > 0 then cfg.maxPages else 0
  }

  predicate Running(cfg: Config, st: Frontier)
  {
    st.queue != [] && st.pagesCrawled < cfg.maxPages
  }

  /** The head of the queue is unvisited and inside the allow-list, so this iteration counts it. */
  predicate Admits(cfg: Config, st: Frontier)
    requires st.queue != []
  {
    st.queue[0] !in st.visited && InAllowedDomains(cfg.parse, cfg.allowed, st.queue[0])
  }

  /** One iteration of the while loop (lines 62-99); None when get_domain raises at line 68. */
  function Step(cfg: Config, st: Frontier): (next: Option<Frontier>)
    requires st.queue != []
    // the only escaping exception: an unvisited URL that urlparse rejects
    ensures next.None? <==> st.queue[0] !in st.visited && cfg.parse(st.queue[0]).None?
    // skip rules: a visited or out-of-domain URL is only popped
    ensures next.Some? && !Admits(cfg, st) ==> next.value == st.(queue := st.queue[1..])
    // an admitted URL is marked visited and counted before anything can fail
    ensures next.Some? && Admits(cfg, st) ==>
      && next.value.visited == st.visited + {st.queue[0]}
      && next.value.pagesCrawled == st.pagesCrawled + 1
    // failure isolation: a failed fetch adds no result and no link
    ensures next.Some? && Admits(cfg, st) && cfg.fetch(st.queue[0]).None? ==>
      next.value.queue == st.queue[1..] && next.value.results == st.results
    // FIFO: the rest of the queue stays in front, the new links go to the back
    ensures next.Some? && Admits(cfg, st) && cfg.fetch(st.queue[0]).Some? ==>
      && next.value.queue == st.queue[1..] + Discover(cfg, st.queue[0], st.visited + {st.queue[0]}, cfg.fetch(st.queue[0]).value.hrefs)
      && next.value.results == st.results + [Record(st.queue[0], cfg.fetch(st.queue[0]).value.content)]
  {
    var url := st.queue[0];
    var rest := st.queue[1..];
    if url in st.visited then Some(st.(queue := rest))
    else match GetDomain(cfg.parse, url)
      case None => None
      case Some(domain) =>
        if domain !in cfg.allowed then Some(st.(queue := rest))
        else
          var visited := st.visited + {url};
          match cfg.fetch(url)
          case None => Some(Frontier(rest, visited, st.pagesCrawled + 1, st.results))
          case Some(page) =>
            Some(Frontier(rest + Discover(cfg, url, visited, page.hrefs), visited,
                          st.pagesCrawled + 1, st.results + [Record(url, page.content)]))
  }

  /** The whole loop, from a given state: it ends when the queue is empty or the budget is spent.
      Every iteration either counts a page or pops without pushing, hence the measure. */
  function Run(cfg: Config, st: Frontier): CrawlResult
    decreases if st.pagesCrawled < cfg.maxPages then cfg.maxPages - st.pagesCrawled else 0, |st.queue|
  {
    if !Running(cfg, st) then Finished(st)
    else match Step(cfg, st)
      case None => Crashed(st.queue[0])
      case Some(next) => Run(cfg, next)
  }

  /** crawl_and_extract(start_urls, max_pages). */
  function Crawl(cfg: Config, seeds: seq<string>): CrawlResult
  {
    Run(cfg, Start(seeds))
  }

  predicate Exhausted(cfg: Config, st: Frontier)
  {
    st.queue == [] || st.pagesCrawled >= cfg.maxPages
  }

  predicate DistinctUrls(results: seq<Record>)
  {
    forall i, j :: 0 <= i < j < |results| ==> results[i].url != results[j].url
  }

  /** The invariant of the loop. */
  ghost predicate Sound(cfg: Config, st: Frontier)
  {
    && st.pagesCrawled <= Budget(cfg)
    && |st.visited| == st.pagesCrawled
    && |st.results| <= st.pagesCrawled
    && (forall u :: u in st.visited ==> InAllowedDomains(cfg.parse, cfg.allowed, u))
    && (forall i :: 0 <= i < |st.results| ==> st.results[i].url in st.visited)
    && DistinctUrls(st.results)
  }

  ghost predicate QueueValid(cfg: Config, st: Frontier)
  {
    forall i :: 0 <= i < |st.queue| ==> IsValidUrl(cfg.parse, st.queue[i])
  }

  lemma StepSound(cfg: Config, st: Frontier)
    requires Running(cfg, st) && Sound(cfg, st) && Step(cfg, st).Some?
    ensures Sound(cfg, Step(cfg, st).value)
  {
    var next := Step(cfg, st).value;
    if Admits(cfg, st) {
      assert st.queue[0] !in st.visited;
      forall i | 0 <= i < |next.results| ensures next.results[i].url in next.visited {
        if i < |st.results| {
          assert next.results[i] == st.results[i];
        }
      }
    }
  }

  /** Whatever the crawl returns satisfies the loop invariant and the exit condition, and the
      state it started from survives in it: results are only appended, visited only grows. */
  lemma {:induction false} RunSound(cfg: Config, st: Frontier)
    requires Sound(cfg, st)
    ensures Run(cfg, st).Finished? ==>
      var f := Run(cfg, st).frontier;
      Sound(cfg, f) && Exhausted(cfg, f) && st.results <= f.results && st.visited <= f.visited
    decreases if st.pagesCrawled < cfg.maxPages then cfg.maxPages - st.pagesCrawled else 0, |st.queue|
  {
    if Running(cfg, st) {
      match Step(cfg, st)
      case None =>
      case Some(next) =>
        StepSound(cfg, st);
        RunSound(cfg, next);
    }
  }

  /** The crawl's bounds: at most max_pages pages are counted, exactly the visited ones; there is
      at most one result per URL, every result URL was visited and lies in the allow-list (the
      domain check applies to seeds too), and the loop stopped on an empty queue or a spent
      budget. */
  lemma CrawlBounds(cfg: Config, seeds: seq<string>)
    ensures Crawl(cfg, seeds).Finished? ==>
      var f := Crawl(cfg, seeds).frontier;
      && f.pagesCrawled <= Budget(cfg)
      && |f.visited| == f.pagesCrawled
      && |f.results| <= Budget(cfg)
      && DistinctUrls(f.results)
      && (forall i :: 0 <= i < |f.results| ==>
            f.results[i].url in f.visited && InAllowedDomains(cfg.parse, cfg.allowed, f.results[i].url))
      && Exhausted(cfg, f)
  {
    RunSound(cfg, Start(seeds));
  }

  /** A record holds the text the fetch of its URL produced. */
  predicate FetchedAs(cfg: Config, r: Record)
  {
    cfg.fetch(r.url).Some? && r.content == cfg.fetch(r.url).value.content
  }

  predicate Recorded(results: seq<Record>, u: string)
  {
    exists i :: 0 <= i < |results| && results[i].url == u
  }

  /** The second half of the loop invariant: the results are exactly the successful fetches of
      the visited URLs. */
  ghost predicate Complete(cfg: Config, st: Frontier)
  {
    && (forall i :: 0 <= i < |st.results| ==> FetchedAs(cfg, st.results[i]))
    && (forall u :: u in st.visited && cfg.fetch(u).Some? ==> Recorded(st.results, u))
  }

  lemma StepComplete(cfg: Config, st: Frontier)
    requires Running(cfg, st) && Complete(cfg, st) && Step(cfg, st).Some?
    ensures Complete(cfg, Step(cfg, st).value)
  {
    var next := Step(cfg, st).value;
    if Admits(cfg, st) {
      var url := st.queue[0];
      forall i | 0 <= i < |next.results| ensures FetchedAs(cfg, next.results[i]) {
        if i < |st.results| {
          assert next.results[i] == st.results[i];
        }
      }
      forall u | u in next.visited && cfg.fetch(u).Some? ensures Recorded(next.results, u) {
        if u == url {
          assert next.results[|st.results|].url == u;
        } else {
          var i :| 0 <= i < |st.results| && st.results[i].url == u;
          assert next.results[i] == st.results[i];
        }
      }
    }
  }

  lemma {:induction false} RunComplete(cfg: Config, st: Frontier)
    requires Complete(cfg, st)
    ensures Run(cfg, st).Finished? ==> Complete(cfg, Run(cfg, st).frontier)
    decreases if st.pagesCrawled < cfg.maxPages then cfg.maxPages - st.pagesCrawled else 0, |st.queue|
  {
    if Running(cfg, st) {
      match Step(cfg, st)
      case None =>
      case Some(next) =>
        StepComplete(cfg, st);
        RunComplete(cfg, next);
    }
  }

  /** What the crawl returns: each record carries the fetched text of its URL, and every visited
      URL whose fetch succeeded has a record. */
  lemma CrawlRecords(cfg: Config, seeds: seq<string>)
    ensures Crawl(cfg, seeds).Finished? ==>
      var f := Crawl(cfg, seeds).frontier;
      && (forall i :: 0 <= i < |f.results| ==>
            cfg.fetch(f.results[i].url).Some? && f.results[i].content == cfg.fetch(f.results[i].url).value.content)
      && (forall u :: u in f.visited && cfg.fetch(u).Some? ==> exists i :: 0 <= i < |f.results| && f.results[i].url == u)
  {
    RunComplete(cfg, Start(seeds));
  }

  lemma {:induction false} RunAllFetchesFail(cfg: Config, st: Frontier)
    requires forall u :: cfg.fetch(u).None?
    ensures Run(cfg, st).Finished? ==> Run(cfg, st).frontier.results == st.results
    decreases if st.pagesCrawled < cfg.maxPages then cfg.maxPages - st.pagesCrawled else 0, |st.queue|
  {
    if Running(cfg, st) {
      match Step(cfg, st)
      case None =>
      case Some(next) =>
        assert cfg.fetch(st.queue[0]).None?;
        RunAllFetchesFail(cfg, next);
    }
  }

  /** Failure isolation over a whole crawl: when every fetch fails, nothing is recorded. */
  lemma AllFetchesFail(cfg: Config, seeds: seq<string>)
    requires forall u :: cfg.fetch(u).None?
    ensures Crawl(cfg, seeds).Finished? ==> Crawl(cfg, seeds).frontier.results == []
  {
    RunAllFetchesFail(cfg, Start(seeds));
  }

  lemma {:induction false} RunNothingAllowed(cfg: Config, st: Frontier)
    requires cfg.allowed == []
    ensures Run(cfg, st).Finished? ==> Run(cfg, st).frontier.results == st.results
    decreases if st.pagesCrawled < cfg.maxPages then cfg.maxPages - st.pagesCrawled else 0, |st.queue|
  {
    if Running(cfg, st) {
      match Step(cfg, st)
      case None =>
      case Some(next) =>
        assert !Admits(cfg, st);
        RunNothingAllowed(cfg, next);
    }
  }

  /** With an empty allow-list nothing is recorded, seeds included. */
  lemma NothingAllowed(cfg: Config, seeds: seq<string>)
    requires cfg.allowed == []
    ensures Crawl(cfg, seeds).Finished? ==> Crawl(cfg, seeds).frontier.results == []
  {
    RunNothingAllowed(cfg, Start(seeds));
  }

  lemma {:induction false} RunNeverCrashes(cfg: Config, st: Frontier)
    requires QueueValid(cfg, st)
    ensures Run(cfg, st).Finished?
    decreases if st.pagesCrawled < cfg.maxPages then cfg.maxPages - st.pagesCrawled else 0, |st.queue|
  {
    if Running(cfg, st) {
      assert IsValidUrl(cfg.parse, st.queue[0]);
      var next := Step(cfg, st).value;
      assert forall i :: 0 <= i < |st.queue| - 1 ==> st.queue[1..][i] == st.queue[i + 1];
      RunNeverCrashes(cfg, next);
    }
  }

  /** A crawl whose seeds are all valid URLs never lets an exception escape: discovered links
      are valid by the enqueue rule, so get_domain at line 68 never raises. */
  lemma CrawlNeverCrashes(cfg: Config, seeds: seq<string>)
    requires forall i :: 0 <= i < |seeds| ==> IsValidUrl(cfg.parse, seeds[i])
    ensures Crawl(cfg, seeds).Finished?
  {
    RunNeverCrashes(cfg, Start(seeds));
  }

  lemma {:induction false} RunGrows(cfg: Config, st: Frontier)
    ensures Run(cfg, st).Finished? ==>
      st.results <= Run(cfg, st).frontier.results && st.visited <= Run(cfg, st).frontier.visited
    decreases if st.pagesCrawled < cfg.maxPages then cfg.maxPages - st.pagesCrawled else 0, |st.queue|
  {
    if Running(cfg, st) {
      match Step(cfg, st)
      case None =>
      case Some(next) => RunGrows(cfg, next);
    }
  }

  /** Breadth-first order starts with the first seed: if it is in the allow-list and the budget
      is positive, it is the first URL visited, and when its fetch succeeds its text is the first
      result. */
  lemma FirstSeedFirst(cfg: Config, seeds: seq<string>)
    requires seeds != [] && cfg.maxPages > 0
    requires InAllowedDomains(cfg.parse, cfg.allowed, seeds[0])
    ensures Crawl(cfg, seeds).Finished? ==>
      var f := Crawl(cfg, seeds).frontier;
      && seeds[0] in f.visited
      && (cfg.fetch(seeds[0]).Some? ==>
            |f.results| > 0 && f.results[0] == Record(seeds[0], cfg.fetch(seeds[0]).value.content))
  {
    var next := Step(cfg, Start(seeds)).value;
    assert Crawl(cfg, seeds) == Run(cfg, next);
    RunGrows(cfg, next);
  }

  /** A skipped URL (already visited, or outside the allow-list) changes nothing but the queue:
      the crawl goes on as if it had never been queued. */
  lemma SkipContinues(cfg: Config, st: Frontier)
    requires Running(cfg, st) && !Admits(cfg, st)
    requires st.queue[0] in st.visited || cfg.parse(st.queue[0]).Some?
    ensures Run(cfg, st) == Run(cfg, st.(queue := st.queue[1..]))
  {
  }

  /** A failed fetch is isolated: the URL stays visited and counted, nothing else changes, and
      the crawl goes on with the rest of the queue. */
  lemma FetchFailureContinues(cfg: Config, st: Frontier)
    requires Running(cfg, st) && Admits(cfg, st) && cfg.fetch(st.queue[0]).None?
    ensures Run(cfg, st) ==
      Run(cfg, Frontier(st.queue[1..], st.visited + {st.queue[0]}, st.pagesCrawled + 1, st.results))
  {
  }

  /** The enqueue rule is complete: while every join succeeds, each joined link that passes the
      test is appended. */
  lemma {:induction false} DiscoverComplete(cfg: Config, base: string, visited: set<string>, hrefs: seq<string>, k: nat)
    requires k < |hrefs|
    requires forall i :: 0 <= i <= k ==> cfg.join(base, hrefs[i]).Some?
    requires Enqueueable(cfg, visited, cfg.join(base, hrefs[k]).value)
    ensures cfg.join(base, hrefs[k]).value in Discover(cfg, base, visited, hrefs)
  {
    if k > 0 {
      DiscoverComplete(cfg, base, visited, hrefs[1..], k - 1);
    }
  }

  /** A join that raises ends the scan: the links before it are kept, none after it is added. */
  lemma {:induction false} DiscoverStopsAtFailure(cfg: Config, base: string, visited: set<string>, hrefs: seq<string>, k: nat)
    requires k < |hrefs| && cfg.join(base, hrefs[k]).None?
    ensures Discover(cfg, base, visited, hrefs) == Discover(cfg, base, visited, hrefs[..k])
  {
    if k > 0 {
      assert hrefs[1..][..k - 1] == hrefs[..k][1..];
      DiscoverStopsAtFailure(cfg, base, visited, hrefs[1..], k - 1);
    }
  }

  /** The scan is a plain filter once the joins succeed: scanning a + b appends the links of a and
      then those of b, so a link that occurs twice is queued twice (no duplicate suppression). */
  lemma {:induction false} DiscoverAppend(cfg: Config, base: string, visited: set<string>, a: seq<string>, b: seq<string>)
    requires forall i :: 0 <= i < |a| ==> cfg.join(base, a[i]).Some?
    ensures Discover(cfg, base, visited, a + b) ==
            Discover(cfg, base, visited, a) + Discover(cfg, base, visited, b)
  {
    if a == [] {
      assert a + b == b;
    } else {
      assert (a + b)[1..] == a[1..] + b;
      DiscoverAppend(cfg, base, visited, a[1..], b);
    }
  }

  /** A URL holding ".pdf", ".zip", ".png" or ".jpg" anywhere (in particular as its ending) is
      never queued, whatever its domain. */
  lemma ExcludedNeverQueued(cfg: Config, visited: set<string>, prefix: string, k: nat, suffix: string)
    requires k < |ExcludedExtensions|
    ensures !Enqueueable(cfg, visited, prefix + ExcludedExtensions[k] + suffix)
  {
    ContainsInfix(prefix, ExcludedExtensions[k], suffix);
  }

  /** The link loop of lines 87-93 for one page: appends the qualifying links to the queue and
      stops at the first urljoin that raises. */
  method ScanLinks(cfg: Config, currentUrl: string, visited: set<string>, hrefs: seq<string>, queue: seq<string>)
    returns (queue': seq<string>)
    ensures queue' == queue + Discover(cfg, currentUrl, visited, hrefs)
  {
    queue' := queue;
    var i := 0;
    while i < |hrefs|
      invariant 0 <= i <= |hrefs|
      invariant queue' + Discover(cfg, currentUrl, visited, hrefs[i..]) ==
                queue + Discover(cfg, currentUrl, visited, hrefs)
    {
      var absoluteUrl := cfg.join(currentUrl, hrefs[i]);
      if absoluteUrl.None? {
        break;
      }
      if Enqueueable(cfg, visited, absoluteUrl.value) {
        queue' := queue' + [absoluteUrl.value];
      }
      assert hrefs[i..][1..] == hrefs[i + 1..];
      i := i + 1;
    }
  }

  /** crawl_and_extract, as the loop the source runs. */
  method CrawlAndExtract(cfg: Config, startUrls: seq<string>) returns (r: CrawlResult)
    ensures r == Crawl(cfg, startUrls)
    ensures r.Finished? ==>
      && r.frontier.pagesCrawled <= Budget(cfg)
      && |r.frontier.visited| == r.frontier.pagesCrawled
      && DistinctUrls(r.frontier.results)
      && (forall i :: 0 <= i < |r.frontier.results| ==>
            InAllowedDomains(cfg.parse, cfg.allowed, r.frontier.results[i].url))
    ensures (forall i :: 0 <= i < |startUrls| ==> IsValidUrl(cfg.parse, startUrls[i])) ==> r.Finished?
  {
    CrawlBounds(cfg, startUrls);
    if forall i :: 0 <= i < |startUrls| ==> IsValidUrl(cfg.parse, startUrls[i]) {
      CrawlNeverCrashes(cfg, startUrls);
    }
    var queue := startUrls;
    var visited: set<string> := {};
    var pagesCrawled: nat := 0;
    var results: seq<Record> := [];
    while queue != [] && pagesCrawled < cfg.maxPages
      invariant Run(cfg, Frontier(queue, visited, pagesCrawled, results)) == Crawl(cfg, startUrls)
      decreases if pagesCrawled < cfg.maxPages then cfg.maxPages - pagesCrawled else 0, |queue|
    {
      ghost var before := Frontier(queue, visited, pagesCrawled, results);
      var currentUrl := queue[0];
      queue := queue[1..];
      if currentUrl in visited {
        continue;
      }
      var domain := GetDomain(cfg.parse, currentUrl);
      if domain.None? {
        return Crashed(currentUrl);
      }
      if domain.value !in cfg.allowed {
        continue;
      }
      visited := visited + {currentUrl};
      pagesCrawled := pagesCrawled + 1;
      var fetched := cfg.fetch(currentUrl);
      if fetched.Some? {
        results := results + [Record(currentUrl, fetched.value.content)];
        queue := ScanLinks(cfg, currentUrl, visited, fetched.value.hrefs, queue);
      }
      assert Step(cfg, before) == Some(Frontier(queue, visited, pagesCrawled, results));
    }
    r := Finished(Frontier(queue, visited, pagesCrawled, results));
  }
}
