/**
 * The link pass of Crawl: which hrefs are followed, how each followed link
 * is classified as internal or external, and which of them are reported
 * broken.
 */
module Links {
  import opened Outcomes
  import opened LinkStatus

  /** A parsed absolute URL: its serialisation (abs.String()) and its host name (Hostname()). */
  datatype Url = Url(text: string, host: string)

  /**
   * The two net/url operations the crawler relies on, taken as given:
   * url.Parse of the page address, and base.Parse(href) which resolves a
   * reference against a base URL. None stands for a returned error.
   */
  datatype UrlLib = UrlLib(parse: string -> Option<Url>, resolve: (Url, string) -> Option<Url>)

  predicate HasPrefix(s: string, prefix: string) {
    |prefix| <= |s| && s[..|prefix|] == prefix
  }

  /** mailto: and javascript: references are neither counted nor checked (case-sensitive, on the raw href). */
  predicate SkippedScheme(href: string) {
    HasPrefix(href, "mailto:") || HasPrefix(href, "javascript:")
  }

  /** An href is followed when its scheme is not skipped and it resolves against the base. */
  predicate Follows(lib: UrlLib, base: Url, href: string) {
    !SkippedScheme(href) && lib.resolve(base, href).Some?
  }

  /** The resolved URLs of the followed hrefs, in document order. */
  function Followed(lib: UrlLib, base: Url, hrefs: seq<string>): seq<Url> {
    if |hrefs| == 0 then []
    else
      var last := hrefs[|hrefs| - 1];
      Followed(lib, base, hrefs[..|hrefs| - 1])
      + (if Follows(lib, base, last) then [lib.resolve(base, last).value] else [])
  }

  function Texts(urls: seq<Url>): (texts: seq<string>)
    ensures |texts| == |urls|
    ensures forall i :: 0 <= i < |urls| ==> texts[i] == urls[i].text
  {
    seq(|urls|, i requires 0 <= i < |urls| => urls[i].text)
  }

  /** Number of URLs whose host name equals host. */
  function CountHost(urls: seq<Url>, host: string): nat {
    if |urls| == 0 then 0
    else CountHost(urls[..|urls| - 1], host) + (if urls[|urls| - 1].host == host then 1 else 0)
  }

  /** Number of URLs whose host name differs from host. */
  function CountOtherHosts(urls: seq<Url>, host: string): nat {
    if |urls| == 0 then 0
    else CountOtherHosts(urls[..|urls| - 1], host) + (if urls[|urls| - 1].host != host then 1 else 0)
  }

  /** Every URL is either on the host or off it, never both. */
  lemma {:induction false} HostCountsPartition(urls: seq<Url>, host: string)
    ensures CountHost(urls, host) + CountOtherHosts(urls, host) == |urls|
  {
    if |urls| > 0 {
      HostCountsPartition(urls[..|urls| - 1], host);
    }
  }

  /**
   * The href loop of Crawl: for each href in order, skip mailto:/javascript:
   * and unresolvable references, append the resolved link, and count it as
   * internal when its host equals the base host and as external otherwise.
   */
  method CollectLinks(lib: UrlLib, base: Url, hrefs: seq<string>)
    returns (links: seq<string>, internal: nat, external: nat)
    ensures links == Texts(Followed(lib, base, hrefs))
    ensures internal == CountHost(Followed(lib, base, hrefs), base.host)
    ensures external == CountOtherHosts(Followed(lib, base, hrefs), base.host)
    ensures internal + external == |links|
  {
    links, internal, external := [], 0, 0;
    var i := 0;
    while i < |hrefs|
      invariant 0 <= i <= |hrefs|
      invariant links == Texts(Followed(lib, base, hrefs[..i]))
      invariant internal == CountHost(Followed(lib, base, hrefs[..i]), base.host)
      invariant external == CountOtherHosts(Followed(lib, base, hrefs[..i]), base.host)
      invariant internal + external == |links|
    {
      FollowedStep(lib, base, hrefs, i);
      var href := hrefs[i];
      if !SkippedScheme(href) {
        var resolved := lib.resolve(base, href);
        if resolved.Some? {
          var abs := resolved.value;
          AppendOne(Followed(lib, base, hrefs[..i]), abs, base.host);
          links := links + [abs.text];
          if abs.host == base.host {
            internal := internal + 1;
          } else {
            external := external + 1;
          }
        }
      }
      i := i + 1;
    }
    assert hrefs[..i] == hrefs;
  }

  /** One more href extends the followed links by its resolution, or not at all. */
  lemma FollowedStep(lib: UrlLib, base: Url, hrefs: seq<string>, i: nat)
    requires i < |hrefs|
    ensures Followed(lib, base, hrefs[..i + 1]) == Followed(lib, base, hrefs[..i])
      + (if Follows(lib, base, hrefs[i]) then [lib.resolve(base, hrefs[i]).value] else [])
    ensures !Follows(lib, base, hrefs[i]) ==> Followed(lib, base, hrefs[..i + 1]) == Followed(lib, base, hrefs[..i])
  {
    assert hrefs[..i + 1][..i] == hrefs[..i];
    assert Followed(lib, base, hrefs[..i]) + [] == Followed(lib, base, hrefs[..i]);
  }

  /** Appending one URL adds its text and increments exactly one of the two host counts. */
  lemma AppendOne(urls: seq<Url>, u: Url, host: string)
    ensures Texts(urls + [u]) == Texts(urls) + [u.text]
    ensures CountHost(urls + [u], host) == CountHost(urls, host) + (if u.host == host then 1 else 0)
    ensures CountOtherHosts(urls + [u], host) == CountOtherHosts(urls, host) + (if u.host != host then 1 else 0)
  {
    assert (urls + [u])[..|urls|] == urls;
  }

  /** Followed distributes over concatenation of the href list. */
  lemma {:induction false} FollowedConcat(lib: UrlLib, base: Url, a: seq<string>, b: seq<string>)
    ensures Followed(lib, base, a + b) == Followed(lib, base, a) + Followed(lib, base, b)
    decreases |b|
  {
    if |b| > 0 {
      assert (a + b)[..|a + b| - 1] == a + b[..|b| - 1];
      FollowedConcat(lib, base, a, b[..|b| - 1]);
    } else {
      assert a + b == a;
    }
  }

  /** An href that is skipped or does not resolve leaves the followed links unchanged. */
  lemma DroppedHrefIsIgnored(lib: UrlLib, base: Url, a: seq<string>, href: string, b: seq<string>)
    requires !Follows(lib, base, href)
    ensures Followed(lib, base, a + [href] + b) == Followed(lib, base, a + b)
  {
    FollowedConcat(lib, base, a + [href], b);
    FollowedConcat(lib, base, a, [href]);
    FollowedConcat(lib, base, a, b);
    assert Followed(lib, base, [href]) == [] by {
      assert [href][..0] == [];
    }
  }

  /** Exactly the resolutions of followed hrefs are followed links. */
  lemma {:induction false} FollowedMembership(lib: UrlLib, base: Url, hrefs: seq<string>, u: Url)
    ensures u in Followed(lib, base, hrefs) <==>
      exists i :: 0 <= i < |hrefs| && Follows(lib, base, hrefs[i]) && lib.resolve(base, hrefs[i]) == Some(u)
  {
    if |hrefs| > 0 {
      var init := hrefs[..|hrefs| - 1];
      FollowedMembership(lib, base, init, u);
      assert forall i :: 0 <= i < |init| ==> init[i] == hrefs[i];
    }
  }

  /** At most one followed link per href. */
  lemma {:induction false} FollowedBound(lib: UrlLib, base: Url, hrefs: seq<string>)
    ensures |Followed(lib, base, hrefs)| <= |hrefs|
    ensures |Followed(lib, base, hrefs)| == |hrefs| <==> forall i :: 0 <= i < |hrefs| ==> Follows(lib, base, hrefs[i])
  {
    if |hrefs| > 0 {
      var init := hrefs[..|hrefs| - 1];
      FollowedBound(lib, base, init);
      assert forall i :: 0 <= i < |init| ==> init[i] == hrefs[i];
    }
  }

  // ----- Broken links -----

  /** One broken link: the link checked and the status isBroken reported for it. */
  datatype BrokenLinkDetail = BrokenLinkDetail(link: string, status: int)

  /**
   * The broken-link check of every collected link, run one after another
   * instead of concurrently: the links whose verdict is broken, each with its
   * status, in link order. probe gives the outcome of the HEAD request sent
   * to a link.
   */
  function BrokenDetails(links: seq<string>, probe: string -> HeadOutcome): seq<BrokenLinkDetail> {
    if |links| == 0 then []
    else
      var last := links[|links| - 1];
      var v := IsBroken(probe(last));
      BrokenDetails(links[..|links| - 1], probe)
      + (if v.broken then [BrokenLinkDetail(last, v.status)] else [])
  }

  /** A detail is reported exactly when it names a collected link whose verdict is broken with that status. */
  lemma {:induction false} BrokenDetailsExact(links: seq<string>, probe: string -> HeadOutcome, d: BrokenLinkDetail)
    ensures d in BrokenDetails(links, probe) <==>
      d.link in links && IsBroken(probe(d.link)) == Verdict(d.status, true)
  {
    if |links| > 0 {
      var init := links[..|links| - 1];
      BrokenDetailsExact(init, probe, d);
      assert links == init + [links[|links| - 1]];
    }
  }

  /** At most one detail per link, and every detail carries 0 (no response) or an error status. */
  lemma {:induction false} BrokenDetailsBound(links: seq<string>, probe: string -> HeadOutcome)
    ensures |BrokenDetails(links, probe)| <= |links|
    ensures forall d :: d in BrokenDetails(links, probe) ==> d.status == 0 || d.status >= FirstErrorStatus
  {
    if |links| > 0 {
      BrokenDetailsBound(links[..|links| - 1], probe);
    }
  }
}
