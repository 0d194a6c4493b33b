# Module Extraction agent: crawl frontier and module inference

A Dafny model of the core of `app.py`, a Streamlit script that crawls a documentation site and
infers a list of modules, each with a description and a dict of submodules. The model covers:

- **the crawl frontier**, `crawl_and_extract`, which is a bounded breadth-first traversal. Its
  state is a FIFO queue, a `visited` set, a page counter and the URL-to-text results. The model
  comes in two forms:
  - the specification functions `Crawl.Step`, `Crawl.Run` and `Crawl.Crawl`;
  - the loop the source runs, `Crawl.CrawlAndExtract` with `Crawl.ScanLinks`, proved equal to
    those functions.
- **the URL helpers** `is_valid_url` and `get_domain` (`Urls`). `urlparse` is a parameter that
  yields the scheme and netloc, or `None` where it raises `ValueError`.
- **the module inference**, `infer_modules_and_submodules`. Its parts are:
  - the walk over each page's h1/h2/h3/p elements, a fold over `Inference.Apply`. The
    submodules dict is an insertion-ordered sequence of distinct keys, and `current_module` is
    an index into the module list;
  - the whitespace clean-up, `re.sub(r'\s+', ' ', s).strip()` (`Text.Normalize`);
  - the order-preserving filter.

  The method `Inference.InferModulesAndSubmodules` runs these as the source's loops and is
  proved equal to `Inference.Infer`.
- **the script's input handling and flow** (`Fields`, `App`):
  - `re.split(r'[,\n]+', …)` for the start URLs, and `split(',')` for the allow-list, each
    followed by strip and drop-empties;
  - the refusal of invalid URLs;
  - the outcome the button handler ends in (`App.Extract`, run as `App.ExtractModules`).

The network, `extract_content` and BeautifulSoup are oracles carried in `Crawl.Config` and
`App.Env`:

- `fetch(url)` returns the page text and its raw hrefs in document order. It returns `None`
  where `requests.get`, `raise_for_status`, the HTML parse or `extract_content` raises. Any of
  these raising is caught at lines 96-99, before anything is recorded.
- `join(base, href)` is `urljoin`. `None` means a `ValueError`, which is caught after the text
  was recorded and ends that page's link scan.
- `elements(text)` is the `find_all(['h1','h2','h3','p'])` list of the re-parsed text, with
  each element's stripped text.

Where the code and its written description differ, the model follows the code:

- Domains are compared as exact strings (`get_domain(url) in ALLOWED_DOMAINS`), with no case
  folding.
- The seeds go through the same domain check as discovered links.
- `get_domain` at line 68 lies outside the `try`, so a seed on which `urlparse` raises makes
  the exception escape the crawl (`Crawl.CrawlResult.Crashed`). The check at line 220 keeps
  this from happening (`App.ExtractNeverFails`).
- On the page `<h2>Auth</h2><p>desc A</p><h3>Login</h3><p>desc B</p><h2>Billing</h2>`, "desc B"
  goes to the submodule Login. The description is already set and Login is the last key
  (`Inference.AuthExample`). "Billing" has no content and is dropped.
- The key `""` is falsy at line 161, so a paragraph whose last submodule key is `""` is
  appended to the module description (`Inference.EmptyKeyToDescription`).
- `re.split` at runs of separators and `str.split` at every separator are modelled exactly
  (`Fields.SplitRuns`, `Fields.SplitEvery`). They agree once empty pieces are dropped
  (`Fields.RunsAsEvery`).

## Model

| member | source | states |
|---|---|---|
| Urls.IsValidUrl | app.py:18-23 | is_valid_url; Urls.IsValidUrlIff states it accepts exactly the URLs urlparse splits without raising into a non-empty scheme and a non-empty netloc |
| Urls.IsValidUrlIff | app.py:18-23 | a URL is valid iff urlparse does not raise and both scheme and netloc are non-empty |
| Urls.GetDomain | app.py:25-26 | get_domain yields a value exactly when urlparse does not raise, and that value is urlparse's netloc; on a valid URL it is non-empty |
| Urls.InAllowedDomains | app.py:68 | the domain test; Urls.InAllowedDomainsIff states it is exact membership of the netloc in the allow-list |
| Urls.InAllowedDomainsIff | app.py:68 | a URL is in the allowed domains iff urlparse does not raise and its netloc is, as an exact string, in the allow-list |
| Crawl.HasExcludedExtension | app.py:92 | the extension filter, a substring test anywhere in the URL; Crawl.ExcludedNeverQueued states its effect |
| Crawl.Enqueueable | app.py:90-92 | the enqueue test; Crawl.Discover, Crawl.DiscoverComplete and Crawl.ExcludedNeverQueued state what it admits |
| Crawl.Discover | app.py:87-93 | the links one page appends are at most as many as its hrefs, and each passes the enqueue test: valid URL, allowed netloc, not visited, no excluded extension |
| Crawl.Step | app.py:61-99 | one iteration. It escapes with an exception exactly when the head is unvisited and urlparse rejects it. A visited or out-of-domain head is only popped. An admitted head is marked visited and counted before the fetch. A failed fetch adds no result and no link. A successful fetch appends one record and pushes the discovered links at the back, behind the rest of the queue |
| Crawl.Run | app.py:61-99 | the while loop; Crawl.RunSound, Crawl.RunComplete, Crawl.RunNeverCrashes and Crawl.RunGrows state its properties |
| Crawl.Crawl | app.py:52-103 | crawl_and_extract; Crawl.CrawlBounds, Crawl.CrawlRecords, Crawl.CrawlNeverCrashes and Crawl.FirstSeedFirst state its properties, and Crawl.CrawlAndExtract runs it as a loop |
| Crawl.StepSound | app.py:61-84 | one iteration keeps the loop invariant: count within budget, \|visited\| equals the count, every result URL visited and allowed, result URLs distinct |
| Crawl.RunSound | app.py:61-103 | the loop ends in a state satisfying the invariant and the exit condition (empty queue or spent budget), and the results and visited set of the start state survive in it |
| Crawl.CrawlBounds | app.py:52-103 | crawl_and_extract counts at most max_pages pages, exactly the visited ones. It returns at most max_pages results, at most one per URL, each visited and inside the allow-list (seeds included), and stops only on an empty queue or spent budget |
| Crawl.StepComplete | app.py:72-84 | one iteration keeps the results exactly the successful fetches of the visited URLs: each record carries its URL's fetched text, and each visited URL that fetched has a record |
| Crawl.RunComplete | app.py:61-99 | the loop ends in a state whose results are exactly the successful fetches of the visited URLs |
| Crawl.CrawlRecords | app.py:52-103 | every record of the crawl carries the fetched text of its URL, and every visited URL whose fetch succeeded has a record |
| Crawl.RunAllFetchesFail | app.py:77-99 | when every fetch fails, the loop never adds a result |
| Crawl.AllFetchesFail | app.py:52-103 | when every fetch fails the crawl returns an empty result map |
| Crawl.RunNothingAllowed | app.py:61-70 | with an empty allow-list every iteration is a skip, so the results never change |
| Crawl.NothingAllowed | app.py:52-70 | with an empty allow-list the crawl records nothing, seeds included |
| Crawl.RunNeverCrashes | app.py:61-93 | if every queued URL is valid, no exception escapes the loop, because the enqueue rule only adds valid URLs |
| Crawl.CrawlNeverCrashes | app.py:18-26 | if every seed is a valid URL, get_domain at line 68 never raises and the crawl finishes |
| Crawl.RunGrows | app.py:72-84 | results are only appended and visited only grows |
| Crawl.FirstSeedFirst | app.py:54-62 | FIFO order: an allowed first seed under a positive budget is visited, and if its fetch succeeds its text is the first result |
| Crawl.SkipContinues | app.py:64-70 | a skipped head changes nothing but the queue: the crawl continues as if it had not been queued |
| Crawl.FetchFailureContinues | app.py:72-99 | a failed fetch leaves the URL visited and counted, adds nothing, and the crawl continues with the rest of the queue |
| Crawl.DiscoverComplete | app.py:87-93 | while every urljoin succeeds, each joined link that passes the test is appended |
| Crawl.DiscoverStopsAtFailure | app.py:87-99 | a urljoin that raises ends the scan: links before it stay, none after it is added |
| Crawl.DiscoverAppend | app.py:87-93 | the scan is a filter over the hrefs: scanning a then b appends a's links then b's, with no suppression of duplicates |
| Crawl.ExcludedNeverQueued | app.py:92 | a URL containing .pdf, .zip, .png or .jpg anywhere is never queued |
| Crawl.ScanLinks | app.py:87-93 | the link loop appends exactly the discovered links to the queue |
| Crawl.CrawlAndExtract | app.py:52-103 | the while loop computes crawl_and_extract as specified by Crawl.Crawl. It satisfies the bounds, and finishes whenever every seed is valid |
| Inference.IndexOf | app.py:152 | the position found holds the key; no position means the key is absent |
| Inference.IndexOfUnique | app.py:152 | with distinct keys a key's position is unique |
| Inference.Put | app.py:152 | assigning a dict key keeps the key order for an existing key and appends a new key at the end |
| Inference.PutGet | app.py:152-165 | after an assignment the key reads back the new value, every other key is unchanged, and the keys stay distinct |
| Inference.Route | app.py:155-168 | paragraph routing. An empty description takes the text even when submodules exist. Otherwise the last key in insertion order takes it, set if empty or appended with a blank. With no submodule, or a last key of "", it is appended to the description |
| Inference.Apply | app.py:136-168 | one element. h2 appends an empty module and makes it current. h1 changes nothing, and neither does h3 or p without a current module. Under a current module, h3 assigns "" to its key in that module's dict and p is routed by Inference.Route inside it. Only the current module changes. Names are kept and keys stay distinct |
| Inference.FoldElements | app.py:136-168 | the walk over one page; Inference.FoldNames, Inference.FoldAppend, Inference.H1Ignored and Inference.FoldKeepsPrefix state its properties |
| Inference.FoldPages | app.py:128-168 | the walk over all pages with current_module reset per page; Inference.PagesIndependent states that pages do not interact |
| Inference.RawModules | app.py:128-168 | modules_data after the walk; Inference.ModuleNames and Inference.PagesIndependent state its content |
| Inference.FoldNames | app.py:136-148 | walking a page appends one module per h2, named by its text |
| Inference.ModuleNames | app.py:128-148 | before filtering there is exactly one module per h2 element, in document and page order |
| Inference.FoldAppend | app.py:136 | the walk over a + b is the walk over b from the state after a |
| Inference.NoModuleYet | app.py:135-168 | with no current module, elements other than h2 change nothing |
| Inference.LeadingNonH2Ignored | app.py:135-168 | everything before the first h2 of a page is ignored, even when earlier pages left modules |
| Inference.H1Ignored | app.py:137-139 | h1 elements have no effect anywhere |
| Inference.ApplyShift | app.py:143-168 | one element acts the same on a module list with earlier modules in front |
| Inference.FoldShift | app.py:135-168 | a page's walk acts the same on a module list with earlier modules in front |
| Inference.PageFrom | app.py:135-168 | a page appends to modules_data exactly the modules it yields on its own |
| Inference.PagesIndependent | app.py:128-168 | although modules accumulate in one list, the raw result is the concatenation of each page's own modules |
| Inference.FoldKeepsPrefix | app.py:155-168 | a module's name never changes and its description only grows at the end |
| Inference.FirstParagraphOpensDescription | app.py:140-157 | on a page that opens with h2 then p, whatever follows, the paragraph begins the first module's description |
| Inference.NormalizeSubmodules | app.py:173-174 | the clean-up keeps the submodule keys and their order |
| Inference.NormalizeModule | app.py:171-174 | the clean-up keeps the module name and the keys in order |
| Inference.NormalizeModuleClean | app.py:171-174 | after clean-up every description has no edge whitespace, no two whitespace in a row, and only blanks as whitespace |
| Inference.NormalizeModuleIdempotent | app.py:171-174 | cleaning a module twice equals cleaning it once |
| Inference.NormalizeAll | app.py:171-174 | the clean-up of every module; Inference.NormalizeAllAppend and Inference.InferShape state its properties |
| Inference.Keep | app.py:179 | the filter's truthiness test; Inference.NormalizeModuleKept reads it back on the raw module |
| Inference.Infer | app.py:105-182 | infer_modules_and_submodules; Inference.InferShape, Inference.InferAppendPage and Inference.AuthExample state its properties, and Inference.InferModulesAndSubmodules runs it as loops |
| Inference.KeepNonEmpty | app.py:176-180 | the filter keeps exactly the modules with a description or submodules |
| Inference.KeepNonEmptyAppend | app.py:176-180 | the filter preserves order: filtering a + b is filtering a then b |
| Inference.RawModulesAppend | app.py:128-168 | an extra page appends its own modules to modules_data |
| Inference.RawModulesOne | app.py:128-168 | one page's modules_data is that page's own modules |
| Inference.NormalizeAllAppend | app.py:171-174 | the clean-up distributes over concatenation |
| Inference.InferAppendPage | app.py:105-182 | the inference is compositional: appending a page appends exactly what that page yields alone |
| Inference.NormalizeModuleOfClean | app.py:171-174 | a module with clean descriptions is unchanged by the clean-up |
| Inference.NormalizeSubmodulesOfClean | app.py:173-174 | submodules with clean descriptions are unchanged by the clean-up |
| Inference.DistinctKeysByName | app.py:152 | the same key sequence means the same distinctness |
| Inference.NormalizeModuleKept | app.py:171-180 | a cleaned module passes the filter iff its raw description has non-whitespace text or it has submodules |
| Inference.InferShape | app.py:105-182 | every output entry is clean with distinct keys and is the cleaned form of a raw module with text or submodules; conversely every such raw module appears in the output |
| Inference.FoldSnoc | app.py:136 | the walk over es + [e] is one more step after es |
| Inference.ParagraphToSubmodule | app.py:159-163 | example state: in a single module that has a description and one empty submodule, a paragraph fills that submodule |
| Inference.AuthHead | app.py:140-152 | h2, p, h3 yields one module with the paragraph as description and one empty submodule |
| Inference.AuthWalk | app.py:135-168 | walking h2 Auth, p, h3 Login, p, h2 Billing gives Auth with Login filled by the second paragraph, then an empty Billing |
| Inference.AuthExample | app.py:105-182 | on that page the inference returns only Auth, with its description and Login's |
| Inference.KeepFirst | app.py:176-180 | of a kept and a dropped clean module, only the first remains |
| Inference.H3ThenParagraph | app.py:149-157 | example page [h2, h3, p]: the paragraph becomes the module description, since it is empty, and the submodule stays "" |
| Inference.RepeatedH3KeepsOrder | app.py:149-165 | a repeated h3 resets its value but keeps its position, so the next paragraph goes to the key inserted last |
| Inference.EmptyKeyToDescription | app.py:159-168 | a last key of "" is falsy: the paragraph is appended to the module description |
| Inference.WalkPage | app.py:135-168 | the element loop over one page computes the fold |
| Inference.NormalizeModules | app.py:170-174 | the clean-up loop computes NormalizeAll |
| Inference.NormalizeSubmoduleList | app.py:173-174 | the inner clean-up loop computes NormalizeSubmodules |
| Inference.FilterModules | app.py:176-180 | the filter loop computes KeepNonEmpty |
| Inference.InferModulesAndSubmodules | app.py:105-182 | the whole function, as loops, computes Infer |
| Text.IsSpace | app.py:172 | the whitespace class of `\s` and `str.isspace`; Text.Normalize, Text.Strip and Text.NormalizeEmptyIff state what the clean-up does with it |
| Text.Contains | app.py:92 | `sub in s`; Text.ContainsInfix states it holds wherever sub occurs |
| Text.TrimLeft | app.py:172 | lstrip removes only leading whitespace, and what it keeps starts with non-whitespace |
| Text.TrimLeftSuffix | app.py:172 | what lstrip keeps is a suffix of its input |
| Text.TrimRight | app.py:172 | rstrip keeps a prefix and removes only trailing whitespace |
| Text.Strip | app.py:172 | strip leaves no edge whitespace, keeps only characters of its input, and keeps the no-double-space and blanks-only shapes |
| Text.StripShape | app.py:172 | strip's result is the contiguous piece of its input that starts where lstrip stopped, without edge whitespace |
| Text.InfixKeeps | app.py:172 | a contiguous piece keeps the whitespace shape and characters of its string |
| Text.Collapse | app.py:172 | re.sub(r'\s+', ' ') leaves no two whitespace in a row and only blanks; the first character is kept or becomes a blank |
| Text.Normalize | app.py:172-174 | the clean-up yields a clean string |
| Text.TrimLeftKeepsText | app.py:172 | lstrip removes only whitespace |
| Text.TrimRightKeepsText | app.py:172 | rstrip removes only whitespace |
| Text.CollapseKeepsText | app.py:172 | collapsing keeps every non-whitespace character, in order |
| Text.NormalizeKeepsText | app.py:172-174 | the clean-up keeps every non-whitespace character in order |
| Text.NormalizeEmptyIff | app.py:172-180 | a description cleans to "" iff it is only whitespace |
| Text.CollapseOfClean | app.py:172 | collapsing a string without whitespace runs or non-blank whitespace changes nothing |
| Text.NormalizeOfClean | app.py:172-174 | a clean string is its own clean-up |
| Text.NormalizeIdempotent | app.py:172-174 | the clean-up is idempotent |
| Text.ContainsInfix | app.py:92 | `sub in s` holds wherever sub occurs |
| Text.CollapseKeep | app.py:172 | a non-whitespace character passes the collapse unchanged |
| Text.CollapseRun | app.py:172 | a run of whitespace becomes one blank |
| Text.NormalizeExample | app.py:165-172 | the joined text "a\n\n  b c" cleans up to "a b c" |
| Fields.SplitEvery | app.py:206 | str.split yields at least one piece |
| Fields.SplitRuns | app.py:215 | re.split yields at least one piece |
| Fields.CleanFields | app.py:206-215 | the comprehension keeps only non-empty, stripped pieces, never more than there were |
| Fields.SplitJoin | app.py:206 | joining str.split's pieces with the separator gives back the input |
| Fields.SplitEveryFree | app.py:206 | no piece of str.split contains a separator |
| Fields.SplitRunsFree | app.py:215 | no piece of re.split contains a separator |
| Fields.SplitEveryNone | app.py:206 | input without separators is one piece |
| Fields.CleanFieldsCons | app.py:206 | the comprehension processes pieces front to back |
| Fields.RunsAsEvery | app.py:215 | after dropping empties, splitting at runs and at every separator agree |
| Fields.CleanFieldsFree | app.py:206-215 | a field never contains a separator |
| Fields.SplitEveryAppend | app.py:206 | a separator cuts the input into two independent halves |
| Fields.CleanFieldsAppend | app.py:206 | the comprehension distributes over concatenation |
| Fields.StripOfTrimmed | app.py:206 | a string without edge whitespace is its own strip |
| App.InputUrls | app.py:215 | the start-URL list; App.FieldsShape, App.InputUrlsConcat and App.InputUrlsSingle state its content |
| App.AllowedDomains | app.py:205-208 | the allow-list; App.FieldsShape, App.AllowedSingle and App.EmptyAllowList state its content |
| App.InvalidUrls | app.py:220 | a URL is reported invalid iff it is an input URL that is_valid_url rejects |
| App.AllValid | app.py:220-221 | no invalid URL means every input URL is valid |
| App.Extract | app.py:214-246 | the handler reports "no URL" iff no URL was entered. An invalid-URL report lists exactly the invalid URLs and is non-empty. Modules are reported only when there is at least one |
| App.ExtractNeverFails | app.py:214-226 | the handler never lets the crawl's exception escape, and crawls only when every URL is valid |
| App.ExtractedFromCrawl | app.py:226-235 | reported modules come from at most max_pages distinct, allowed, crawled pages, inferred in crawl order |
| App.EmptyAllowList | app.py:205-206 | a setting holding no domain (such as ",  ,") empties the allow-list and no module can be reported |
| App.FieldsShape | app.py:206-215 | every start URL and custom domain is non-empty, has no edge whitespace and contains no separator |
| App.InputUrlsConcat | app.py:215 | commas and newlines are interchangeable and may repeat: the URLs of a, separator, b are a's then b's |
| App.InputUrlsSingle | app.py:215 | a text with no separator is one stripped URL unless blank |
| App.AllowedSingle | app.py:203-206 | a setting naming one domain keeps exactly that domain, so the field's initial text keeps the default list |
| App.ExtractModules | app.py:214-246 | the handler as written computes Extract |

## Left out

- The Streamlit UI is not modelled. This covers the widgets, the info, warning, error and
  success messages, the progress bar and its division at line 75, `st.json` and the download
  button. The outcome a message reports is `App.Outcome`.
- The network, timeouts and `raise_for_status` (lines 78-79) are folded into the `fetch`
  oracle.
- `extract_content` (lines 28-50) is part of the `fetch` oracle. It raises when there is no
  `md-content` div, because `main_content` is then unbound at line 41; the oracle's `None`
  covers that.
- BeautifulSoup is an oracle. Its parse at line 80, `find_all('a', href=True)` at line 87, and
  the re-parse and `find_all` at lines 132-136 are not modelled. The re-parsed text is what
  `get_text` returned, so on real pages it likely holds no h2 elements; the model takes the
  element lists as given.
- The internals of `urlparse` and `urljoin` are not modelled; both are parameters.
- `time.sleep` at line 95 is a timing side effect and is not modelled.
- `json.dumps` at line 239 is serialisation and is not modelled.
- `full_text` at line 117 is computed but never used, so it is not modelled.
- The global `ALLOWED_DOMAINS` is mutated at line 206; the model passes the allow-list as a
  parameter instead.
- Python's full regular-expression engine is not modelled. Only the three patterns used are:
  `\s+`, `[,\n]+`, and a literal `,`. Whitespace is the `str.isspace` set of code points.
- `App.ExtractModules` keeps the branch for an escaping crawl exception, as the script has it.
  It does not restate in its contract that the branch is dead; `App.ExtractNeverFails` states
  that about `App.Extract`, which the method equals.
