/** URL handling of app.py (lines 18-26). `urllib.parse.urlparse` is a library routine whose
    internals are not modelled: it is a parameter of type Parser, which yields the two
    components the program reads, or None where urlparse raises ValueError. */
module Urls {
  import opened Wrappers

  datatype UrlParts = UrlParts(scheme: string, netloc: string)

  type Parser = string -> Option<UrlParts>

  /** is_valid_url: urlparse succeeds and both scheme and netloc are non-empty; a ValueError
      from urlparse means "not valid". */
  predicate IsValidUrl(parse: Parser, url: string)
  {
    match parse(url)
    case None => false
    case Some(p) => p.scheme != "" && p.netloc != ""
  }

  /** get_domain: the netloc of the URL. It does not catch ValueError, so None here means that
      the call raises. */
  function GetDomain(parse: Parser, url: string): (d: Option<string>)
    ensures d.Some? <==> parse(url).Some?
    ensures d.Some? ==> d.value == parse(url).value.netloc
    ensures IsValidUrl(parse, url) ==> d.Some? && d.value != ""
  {
    match parse(url)
    case None => None
    case Some(p) => Some(p.netloc)
  }

  /** `get_domain(url) in ALLOWED_DOMAINS`, for a URL whose parse does not raise: exact string
      membership in the allow-list. */
  predicate InAllowedDomains(parse: Parser, allowed: seq<string>, url: string)
  {
    GetDomain(parse, url).Some? && GetDomain(parse, url).value in allowed
  }

  /** The domain test is exact membership of urlparse's netloc in the allow-list. */
  lemma InAllowedDomainsIff(parse: Parser, allowed: seq<string>, url: string)
    ensures InAllowedDomains(parse, allowed, url) <==> parse(url).Some? && parse(url).value.netloc in allowed
  {
  }

  /** is_valid_url accepts exactly the URLs that urlparse splits into a non-empty scheme and a
      non-empty netloc. */
  lemma IsValidUrlIff(parse: Parser, url: string)
    ensures IsValidUrl(parse, url) <==>
      parse(url).Some? && parse(url).value.scheme != "" && parse(url).value.netloc != ""
  {
  }
}
