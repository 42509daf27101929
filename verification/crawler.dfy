/**
 * Crawl: the analysis of one fetched page. Fetching the page, parsing its
 * HTML, parsing URLs and probing links are inputs; what remains is the
 * sequential logic that turns them into a CrawlResult.
 */
module Crawler {
  import opened Outcomes
  import opened Bytes
  import opened Doctype
  import opened LinkStatus
  import opened Document
  import opened Links

  datatype CrawlResult = CrawlResult(
    htmlVersion: string,
    title: string,
    h1Count: nat,
    h2Count: nat,
    h3Count: nat,
    h4Count: nat,
    h5Count: nat,
    h6Count: nat,
    internalLinks: nat,
    externalLinks: nat,
    brokenLinks: nat,
    hasLoginForm: bool,
    brokenLinkDetails: seq<BrokenLinkDetail>)

  /** What the GET of the target and the HTML parse of its body produced. */
  datatype Fetch =
    | GetFailed(err: string)               // client.Get returned an error
    | ParseFailed(err: string)             // the HTML parser returned an error
    | Fetched(body: seq<Byte>, page: Page) // the body read while parsing, and the parsed page

  /**
   * Everything Crawl derives from the page before link analysis: the
   * version, the title, the heading counts and the login flag. The link
   * fields start at zero.
   */
  method Summarize(body: seq<Byte>, page: Page) returns (r: CrawlResult)
    ensures r.htmlVersion == Detect(body).Name()
    ensures r.title == Title(page)
    ensures r.hasLoginForm == HasLoginForm(page.forms)
    ensures r.h1Count + r.h2Count + r.h3Count + r.h4Count + r.h5Count + r.h6Count
            == |Headings(page.tags)|
    ensures r.h1Count == CountTag(page.tags, "h1") && r.h2Count == CountTag(page.tags, "h2")
    ensures r.h3Count == CountTag(page.tags, "h3") && r.h4Count == CountTag(page.tags, "h4")
    ensures r.h5Count == CountTag(page.tags, "h5") && r.h6Count == CountTag(page.tags, "h6")
    ensures r.internalLinks == 0 && r.externalLinks == 0 && r.brokenLinks == 0
    ensures r.brokenLinkDetails == []
  {
    var version := DetectHTMLVersion(body);
    HeadingCountsCoverHeadings(page.tags);
    r := CrawlResult(
      htmlVersion := version,
      title := Title(page),
      h1Count := CountTag(page.tags, "h1"),
      h2Count := CountTag(page.tags, "h2"),
      h3Count := CountTag(page.tags, "h3"),
      h4Count := CountTag(page.tags, "h4"),
      h5Count := CountTag(page.tags, "h5"),
      h6Count := CountTag(page.tags, "h6"),
      internalLinks := 0,
      externalLinks := 0,
      brokenLinks := 0,
      hasLoginForm := HasLoginForm(page.forms),
      brokenLinkDetails := []);
  }

  /**
   * The broken-link check of every collected link and the drain of its
   * channel. The concurrent checks run one after another here: each link
   * gets its isBroken verdict, and each broken one is counted and appended
   * with its status.
   */
  method ReportBroken(links: seq<string>, probe: string -> HeadOutcome)
    returns (count: nat, details: seq<BrokenLinkDetail>)
    ensures count == |details| <= |links|
    ensures multiset(details) == multiset(BrokenDetails(links, probe))
  {
    count, details := 0, [];
    for j := 0 to |links|
      invariant details == BrokenDetails(links[..j], probe)
      invariant count == |details|
    {
      assert links[..j + 1][..j] == links[..j];
      var verdict := IsBroken(probe(links[j]));
      if verdict.broken {
        count := count + 1;
        details := details + [BrokenLinkDetail(links[j], verdict.status)];
      }
    }
    assert links[..|links|] == links;
    BrokenDetailsBound(links, probe);
  }

  method Crawl(target: string, fetch: Fetch, lib: UrlLib, probe: string -> HeadOutcome)
    returns (res: Result<CrawlResult, string>)
    // errors of the fetch and of the parse are returned as they are
    ensures !fetch.Fetched? ==> res == Failure(fetch.err)
    ensures fetch.Fetched? ==> res.Success?
    // what the page itself yields
    ensures res.Success? ==>
      var r := res.value;
      && r.htmlVersion == Detect(fetch.body).Name()
      && r.title == Title(fetch.page)
      && r.hasLoginForm == HasLoginForm(fetch.page.forms)
      && r.h1Count + r.h2Count + r.h3Count + r.h4Count + r.h5Count + r.h6Count
         == |Headings(fetch.page.tags)|
      && r.h1Count == CountTag(fetch.page.tags, "h1") && r.h2Count == CountTag(fetch.page.tags, "h2")
      && r.h3Count == CountTag(fetch.page.tags, "h3") && r.h4Count == CountTag(fetch.page.tags, "h4")
      && r.h5Count == CountTag(fetch.page.tags, "h5") && r.h6Count == CountTag(fetch.page.tags, "h6")
    // link analysis is skipped when the target does not parse
    ensures res.Success? && lib.parse(target).None? ==>
      var r := res.value;
      r.internalLinks == 0 && r.externalLinks == 0 && r.brokenLinks == 0 && r.brokenLinkDetails == []
    // otherwise the followed links are classified by host and the broken ones reported
    ensures res.Success? && lib.parse(target).Some? ==>
      var r := res.value;
      var base := lib.parse(target).value;
      var followed := Followed(lib, base, fetch.page.hrefs);
      && r.internalLinks == CountHost(followed, base.host)
      && r.externalLinks == CountOtherHosts(followed, base.host)
      && r.internalLinks + r.externalLinks == |followed|
      && multiset(r.brokenLinkDetails) == multiset(BrokenDetails(Texts(followed), probe))
    // aggregate consistency
    ensures res.Success? ==>
      var r := res.value;
      && r.brokenLinks == |r.brokenLinkDetails|
      && r.internalLinks + r.externalLinks <= |fetch.page.hrefs|
      && r.brokenLinks <= r.internalLinks + r.externalLinks
      && (forall d :: d in r.brokenLinkDetails ==> d.status == 0 || d.status >= FirstErrorStatus)
  {
    if !fetch.Fetched? {
      return Failure(fetch.err);
    }
    var r := Summarize(fetch.body, fetch.page);
    var parsed := lib.parse(target);
    if parsed.None? {
      return Success(r);
    }
    var base := parsed.value;
    var links, internal, external := CollectLinks(lib, base, fetch.page.hrefs);
    FollowedBound(lib, base, fetch.page.hrefs);
    var count, details := ReportBroken(links, probe);
    BrokenDetailsBound(links, probe);
    assert forall d :: d in details ==> d in multiset(BrokenDetails(links, probe));
    r := r.(internalLinks := internal, externalLinks := external,
            brokenLinks := count, brokenLinkDetails := details);
    return Success(r);
  }
}
