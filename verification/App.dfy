/** What app.py does when "Extract Modules" is pressed (lines 200-246): it reads the allow-list
    and the start URLs from two text fields, refuses an empty or invalid URL list, crawls, infers
    the modules of the pages it got, and reports one of five outcomes.

    The widgets, messages and the JSON download are presentation and are not modelled; what the
    script shows is the Outcome. BeautifulSoup's re-parse of each page's text (line 132) and
    `find_all` (line 136) are the parameter `elements` of the Env. */
module App {
  import opened Wrappers
  import opened Text
  import opened Fields
  import opened Urls
  import opened Crawl
  import opened Inference

  /** ALLOWED_DOMAINS as declared at line 13. */
  const DefaultDomains: seq<string> := ["fastapi.tiangolo.com"]

  /** The default max_pages of crawl_and_extract (line 52); the script does not override it. */
  const MaxPages: int := 50

  /** The start URLs (line 215): cut at runs of ',' and '\n', stripped, empties dropped. */
  function InputUrls(text: string): seq<string>
  {
    CleanFields(SplitRuns([], text, {',', '\n'}))
  }

  /** The allow-list (lines 205-208): a non-empty setting is cut at every ',', stripped, and
      empties dropped; an empty setting keeps the default list. */
  function AllowedDomains(custom: string): seq<string>
  {
    if custom != [] then CleanFields(SplitEvery([], custom, {','})) else DefaultDomains
  }

  /** `[url for url in input_urls if not is_valid_url(url)]` (line 220). */
  function InvalidUrls(parse: Parser, urls: seq<string>): (bad: seq<string>)
    ensures |bad| <= |urls|
    ensures forall u :: u in bad <==> u in urls && !IsValidUrl(parse, u)
    decreases |urls|
  {
    if urls == [] then []
    else
      var init := urls[..|urls| - 1];
      var last := urls[|urls| - 1];
      assert urls == init + [last];
      InvalidUrls(parse, init) + (if IsValidUrl(parse, last) then [] else [last])
  }

  lemma AllValid(parse: Parser, urls: seq<string>)
    requires InvalidUrls(parse, urls) == []
    ensures forall i :: 0 <= i < |urls| ==> IsValidUrl(parse, urls[i])
  {
    forall i | 0 <= i < |urls| ensures IsValidUrl(parse, urls[i]) {
      assert urls[i] in urls;
    }
  }

  /** The library routines the script depends on. */
  datatype Env = Env(
    parse: Parser,
    fetch: string -> Option<Page>,
    join: (string, string) -> Option<string>,
    elements: string -> seq<Element>)

  /** What the script ends with. CrawlFailed is an exception escaping crawl_and_extract, which
      Streamlit would show as an error trace. */
  datatype Outcome =
    | NoUrls
    | Invalid(urls: seq<string>)
    | CrawlFailed(url: string)
    | NoContent
    | NoModules
    | Extracted(modules: seq<ModuleEntry>)

  function Settings(env: Env, custom: string): Config
  {
    Config(AllowedDomains(custom), MaxPages, env.parse, env.fetch, env.join)
  }

  /** The element lists of the crawled pages, in the order their texts were recorded (the
      iteration order of the result dict). */
  function PagesOf(env: Env, results: seq<Record>): seq<seq<Element>>
  {
    seq(|results|, i requires 0 <= i < |results| => env.elements(results[i].content))
  }

  /** The script's decisions, in the order of lines 215-246. */
  function Extract(env: Env, urlsText: string, custom: string): (o: Outcome)
    ensures o.NoUrls? <==> InputUrls(urlsText) == []
    ensures o.Invalid? ==> o.urls == InvalidUrls(env.parse, InputUrls(urlsText)) && o.urls != []
    ensures o.Extracted? ==> o.modules != []
  {
    var urls := InputUrls(urlsText);
    if urls == [] then NoUrls
    else
      var bad := InvalidUrls(env.parse, urls);
      if bad != [] then Invalid(bad)
      else
        match Crawl.Crawl(Settings(env, custom), urls)
        case Crashed(u) => CrawlFailed(u)
        case Finished(f) =>
          if f.results == [] then NoContent
          else
            var modules := Infer(PagesOf(env, f.results));
            if modules == [] then NoModules else Extracted(modules)
  }

  /** The URL check before the crawl is enough: no exception ever leaves the crawl, and a crawl
      only starts when every URL is valid. */
  lemma ExtractNeverFails(env: Env, urlsText: string, custom: string)
    ensures !Extract(env, urlsText, custom).CrawlFailed?
    ensures var o := Extract(env, urlsText, custom);
      o.NoContent? || o.NoModules? || o.Extracted? ==>
        InputUrls(urlsText) != [] && forall u :: u in InputUrls(urlsText) ==> IsValidUrl(env.parse, u)
  {
    var urls := InputUrls(urlsText);
    if InvalidUrls(env.parse, urls) == [] {
      AllValid(env.parse, urls);
      CrawlNeverCrashes(Settings(env, custom), urls);
    }
  }

  /** When modules are reported they come from at most max_pages pages, each crawled once and
      from the allow-list, and each module satisfies the shape the inference guarantees. */
  lemma ExtractedFromCrawl(env: Env, urlsText: string, custom: string)
    requires Extract(env, urlsText, custom).Extracted?
    ensures var cfg := Settings(env, custom); var urls := InputUrls(urlsText);
      && Crawl.Crawl(cfg, urls).Finished?
      && var f := Crawl.Crawl(cfg, urls).frontier;
      && 0 < |f.results| <= MaxPages
      && DistinctUrls(f.results)
      && (forall i :: 0 <= i < |f.results| ==> InAllowedDomains(env.parse, AllowedDomains(custom), f.results[i].url))
      && Extract(env, urlsText, custom).modules == Infer(PagesOf(env, f.results))
  {
    CrawlBounds(Settings(env, custom), InputUrls(urlsText));
  }

  /** A setting that is non-empty but holds no domain (such as ",  ,") empties the allow-list,
      and then nothing is crawled: even valid URLs end in NoContent. */
  lemma EmptyAllowList(env: Env, urlsText: string, custom: string)
    requires AllowedDomains(custom) == []
    ensures var o := Extract(env, urlsText, custom); !o.NoModules? && !o.Extracted?
  {
    NothingAllowed(Settings(env, custom), InputUrls(urlsText));
  }

  /** Every start URL is non-empty, has no whitespace at either end and contains neither ','
      nor '\n'; the same holds for each domain of a custom allow-list, with ','. */
  lemma FieldsShape(urlsText: string, custom: string)
    ensures forall i :: 0 <= i < |InputUrls(urlsText)| ==>
      var u := InputUrls(urlsText)[i]; u != [] && NoEdgeSpace(u) && Free(u, {',', '\n'})
    ensures custom != [] ==> forall i :: 0 <= i < |AllowedDomains(custom)| ==>
      var d := AllowedDomains(custom)[i]; d != [] && NoEdgeSpace(d) && Free(d, {','})
  {
    SplitRunsFree([], urlsText, {',', '\n'});
    CleanFieldsFree(SplitRuns([], urlsText, {',', '\n'}), {',', '\n'});
    SplitEveryFree([], custom, {','});
    CleanFieldsFree(SplitEvery([], custom, {','}), {','});
  }

  /** Commas and newlines are interchangeable and may be repeated: the URLs of `a`, then a
      separator, then `b` are the URLs of `a` followed by those of `b`. */
  lemma InputUrlsConcat(a: string, c: char, b: string)
    requires c == ',' || c == '\n'
    ensures InputUrls(a + [c] + b) == InputUrls(a) + InputUrls(b)
  {
    var seps := {',', '\n'};
    RunsAsEvery([], a + [c] + b, seps);
    RunsAsEvery([], a, seps);
    RunsAsEvery([], b, seps);
    SplitEveryAppend([], a, c, b, seps);
    CleanFieldsAppend(SplitEvery([], a, seps), SplitEvery([], b, seps));
  }

  /** A text with no separator is a single URL, stripped, unless it is blank. */
  lemma InputUrlsSingle(u: string)
    requires Free(u, {',', '\n'})
    ensures InputUrls(u) == if Strip(u) != [] then [Strip(u)] else []
  {
    RunsAsEvery([], u, {',', '\n'});
    SplitEveryNone([], u, {',', '\n'});
    assert [] + u == u;
    CleanFieldsCons(u, []);
    assert [u] + [] == [u];
  }

  /** A setting naming one domain, with no comma and no surrounding blanks, is that domain; the
      field's initial text `", ".join(ALLOWED_DOMAINS)` therefore keeps the default list. */
  lemma AllowedSingle(d: string)
    requires d != [] && Free(d, {','}) && NoEdgeSpace(d)
    ensures AllowedDomains(d) == [d]
  {
    SplitEveryNone([], d, {','});
    assert [] + d == d;
    StripOfTrimmed(d);
    CleanFieldsCons(d, []);
    assert [d] + [] == [d];
  }

  /** The button handler, running the crawl and the inference as the loops the source runs. */
  method ExtractModules(env: Env, urlsText: string, custom: string) returns (o: Outcome)
    ensures o == Extract(env, urlsText, custom)
  {
    var inputUrls := InputUrls(urlsText);
    if inputUrls == [] {
      return NoUrls;
    }
    var invalidUrls := InvalidUrls(env.parse, inputUrls);
    if invalidUrls != [] {
      return Invalid(invalidUrls);
    }
    var crawled := CrawlAndExtract(Settings(env, custom), inputUrls);
    if crawled.Crashed? {
      return CrawlFailed(crawled.url);
    }
    var extracted := crawled.frontier.results;
    if extracted == [] {
      return NoContent;
    }
    var resultData := InferModulesAndSubmodules(PagesOf(env, extracted));
    if resultData == [] {
      return NoModules;
    }
    o := Extracted(resultData);
  }
}
