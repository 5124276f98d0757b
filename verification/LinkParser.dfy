/** The one-page hyperlink lister (teht1/main.py): scheme prefixing of the
    user's input, the host/domain/top-level-domain/path properties of a URL,
    the collection of a page's links and their grouping by host and domain. */
module LinkParser {
  import opened Wrappers
  import opened Seqs
  import opened PyStr

  /** Input without the substring `http` is given the `http://` scheme. */
  function PrefixScheme(inp: string): (url: string)
    ensures Contains(url, "http")
    ensures Contains(inp, "http") ==> url == inp
    ensures !Contains(inp, "http") ==> url == "http://" + inp
  {
    if !Contains(inp, "http") then
      assert ("http://" + inp)[..4] == "http";
      "http://" + inp
    else inp
  }

  /** Prefixing a second time changes nothing. */
  lemma PrefixSchemeIdempotent(inp: string)
    ensures PrefixScheme(PrefixScheme(inp)) == PrefixScheme(inp)
  {
  }

  // ---------------------------------------------------------------------
  // parse_url: the URL's properties

  datatype UrlProperties = UrlProperties(tld: string, domain: string, hostname: string, path: string)

  /** `domains[-1]` on an empty list. */
  datatype UrlError = IndexError

  predicate IsWwwLabel(name: string) { Contains(name, "www") }

  /** A label `parse_url` keeps for the host name. */
  predicate KeptLabel(name: string) { !IsWwwLabel(name) }

  /** The netloc's dot-separated labels without those containing `www`. */
  function HostLabels(netloc: string): (labels: seq<string>)
    ensures forall k :: 0 <= k < |labels| ==> !IsWwwLabel(labels[k]) && '.' !in labels[k]
    ensures labels == [] <==> forall l :: l in Split(netloc, '.') ==> IsWwwLabel(l)
    ensures IsSubsequence(labels, Split(netloc, '.'))
    ensures forall l :: l in Split(netloc, '.') && !IsWwwLabel(l) ==> multiset(labels)[l] == multiset(Split(netloc, '.'))[l]
  {
    HostLabelsFacts(Split(netloc, '.'));
    Filter(Split(netloc, '.'), KeptLabel)
  }

  lemma HostLabelsFacts(labels: seq<string>)
    requires forall k :: 0 <= k < |labels| ==> '.' !in labels[k]
    ensures forall k :: 0 <= k < |Filter(labels, KeptLabel)| ==>
              !IsWwwLabel(Filter(labels, KeptLabel)[k]) && '.' !in Filter(labels, KeptLabel)[k]
    ensures Filter(labels, KeptLabel) == [] <==> forall l :: l in labels ==> IsWwwLabel(l)
  {
    var kept := Filter(labels, KeptLabel);
    FilterLength(labels, KeptLabel);
    forall k | 0 <= k < |kept| ensures !IsWwwLabel(kept[k]) && '.' !in kept[k] {
      assert kept[k] in kept;
      var j :| 0 <= j < |labels| && labels[j] == kept[k];
    }
  }

  /** Python's `labels[-2:]`. */
  function LastTwo(labels: seq<string>): (last: seq<string>)
    ensures |last| <= 2 && |last| <= |labels| && last == labels[|labels| - |last|..]
    ensures |labels| >= 2 ==> |last| == 2
  {
    if |labels| <= 2 then labels else labels[|labels| - 2..]
  }

  /** The host name joined from the labels splits back into them and ends with the last. */
  lemma HostnameRoundTrip(domains: seq<string>)
    requires domains != []
    requires forall k :: 0 <= k < |domains| ==> '.' !in domains[k]
    ensures Split(Join(domains, '.'), '.') == domains
    ensures EndsWith(Join(domains, '.'), domains[|domains| - 1])
  {
    SplitJoin(domains, '.');
    JoinEndsWithLastFields(domains, 1, '.');
    assert domains[|domains| - 1..] == [domains[|domains| - 1]];
  }

  lemma SuffixKeepsNoSeparator(labels: seq<string>, i: nat, sep: char)
    requires i <= |labels|
    requires forall k :: 0 <= k < |labels| ==> sep !in labels[k]
    ensures forall k :: 0 <= k < |labels[i..]| ==> sep !in labels[i..][k]
  {
    forall k | 0 <= k < |labels[i..]| ensures sep !in labels[i..][k] {
      assert labels[i..][k] == labels[i + k];
    }
  }

  /** The domain joined from the last two labels splits back into them. */
  lemma DomainRoundTrip(labels: seq<string>)
    requires labels != []
    requires forall k :: 0 <= k < |labels| ==> '.' !in labels[k]
    ensures Split(Join(LastTwo(labels), '.'), '.') == LastTwo(labels)
  {
    var last := LastTwo(labels);
    SuffixKeepsNoSeparator(labels, |labels| - |last|, '.');
    SplitJoin(last, '.');
  }

  /** The domain joined from the last two labels is a suffix of the netloc. */
  lemma DomainIsSuffix(netloc: string)
    ensures Split(Join(LastTwo(Split(netloc, '.')), '.'), '.') == LastTwo(Split(netloc, '.'))
    ensures EndsWith(netloc, Join(LastTwo(Split(netloc, '.')), '.'))
  {
    var labels := Split(netloc, '.');
    var last := LastTwo(labels);
    JoinSplit(netloc, '.');
    JoinEndsWithLastFields(labels, |last|, '.');
    DomainRoundTrip(labels);
  }

  /** The `tld`, `domain`, `hostname` and `path` that `parse_url` computes from
      the parsed netloc and path; `IndexError` when every label contains `www`. */
  function UrlPropertiesOf(netloc: string, parsedPath: string): (r: Result<UrlProperties, UrlError>)
    ensures r.Failure? <==> forall l :: l in Split(netloc, '.') ==> IsWwwLabel(l)
    ensures r.Success? <==> HostLabels(netloc) != []
    ensures r.Success? ==> r.value.path == if parsedPath == "" then "/" else parsedPath
  {
    var domains := HostLabels(netloc);
    if domains == [] then Failure(IndexError)
    else
      Success(UrlProperties(domains[|domains| - 1], Join(LastTwo(Split(netloc, '.')), '.'), Join(domains, '.'),
                            if parsedPath != "" then parsedPath else "/"))
  }

  /** The host name splits back into the labels without `www`, and ends with the
      top-level domain, which is the last of them. */
  lemma {:induction false} HostnameOfUrl(netloc: string, parsedPath: string)
    requires UrlPropertiesOf(netloc, parsedPath).Success?
    ensures var props := UrlPropertiesOf(netloc, parsedPath).value;
            && Split(props.hostname, '.') == HostLabels(netloc)
            && props.tld == HostLabels(netloc)[|HostLabels(netloc)| - 1]
            && EndsWith(props.hostname, props.tld)
  {
    HostnameRoundTrip(HostLabels(netloc));
  }

  /** The domain is the netloc's last two labels, at most, and a suffix of the netloc. */
  lemma DomainOfUrl(netloc: string, parsedPath: string)
    ensures UrlPropertiesOf(netloc, parsedPath).Success? ==>
            var props := UrlPropertiesOf(netloc, parsedPath).value;
            && Split(props.domain, '.') == LastTwo(Split(netloc, '.'))
            && EndsWith(netloc, props.domain)
  {
    if UrlPropertiesOf(netloc, parsedPath).Success? {
      DomainIsSuffix(netloc);
    }
  }

  // ---------------------------------------------------------------------
  // parse_page_for_links

  /** Hrefs that `parse_page_for_links` skips. */
  const IgnoredHrefs: seq<string> := ["#", "javascript:void(0)"]

  /** The address `parse_page_for_links` fetches. */
  function PageUrl(hostname: string, path: string): string
  {
    "https://" + hostname + path
  }

  /** An anchor's `href` attribute; `None` when the anchor has none. */
  predicate Skipped(href: Option<string>)
  {
    href.Some? && href.value in IgnoredHrefs
  }

  /** `urljoin(url, href)`: a missing href is falsy, so `urljoin` gives back the base. */
  function Resolve(url: string, href: Option<string>, urljoin: (string, string) -> string): (link: string)
    ensures href == None ==> link == url
  {
    match href
    case None => url
    case Some(h) => urljoin(url, h)
  }

  /** `parse_page_for_links`, with the page's anchors' hrefs given and `urljoin`
      as a parameter: every href other than the two ignored ones, resolved
      against the page address, collected into a set. */
  method ParsePageForLinks(hostname: string, path: string, hrefs: seq<Option<string>>, urljoin: (string, string) -> string)
    returns (links: set<string>)
    ensures links == set h | h in hrefs && !Skipped(h) :: Resolve(PageUrl(hostname, path), h, urljoin)
    ensures None in hrefs ==> PageUrl(hostname, path) in links
    ensures forall h :: h in hrefs && !Skipped(h) ==> Resolve(PageUrl(hostname, path), h, urljoin) in links
    ensures |links| <= |hrefs|
  {
    var url := PageUrl(hostname, path);
    var urls: seq<string> := [];
    for i := 0 to |hrefs|
      invariant (set u | u in urls) == set h | h in hrefs[..i] && !Skipped(h) :: Resolve(url, h, urljoin)
      invariant |urls| <= i
    {
      var href := hrefs[i];
      assert hrefs[..i + 1] == hrefs[..i] + [href];
      assert (set h | h in hrefs[..i + 1] && !Skipped(h) :: Resolve(url, h, urljoin))
          == (set h | h in hrefs[..i] && !Skipped(h) :: Resolve(url, h, urljoin))
             + (if Skipped(href) then {} else {Resolve(url, href, urljoin)});
      if Skipped(href) {
        continue;
      }
      assert (set u | u in urls + [Resolve(url, href, urljoin)]) == (set u | u in urls) + {Resolve(url, href, urljoin)};
      urls := urls + [Resolve(url, href, urljoin)];
    }
    assert hrefs[..|hrefs|] == hrefs;
    links := set u | u in urls;
    SetOfSeqCardinality(urls);
  }

  // ---------------------------------------------------------------------
  // parse_url: grouping the links

  datatype Bucket = SameHost | SameDomain | DifferentDomain

  /** The group `parse_url` puts a link in; "Same host" is tested first. */
  function BucketOf(link: string, hostname: string, domain: string): (b: Bucket)
    ensures b == SameHost <==> Contains(link, "://" + hostname) || Contains(link, "//www." + hostname)
    ensures b == SameDomain <==> !Contains(link, "://" + hostname) && !Contains(link, "//www." + hostname) && Contains(link, domain)
  {
    if Contains(link, "://" + hostname) || Contains(link, "//www." + hostname) then SameHost
    else if Contains(link, domain) then SameDomain
    else DifferentDomain
  }

  /** Links that start with the page's own address, such as relative links resolved
      against it, are always "Same host". */
  lemma PageLinksAreSameHost(hostname: string, path: string, rest: string, domain: string)
    ensures BucketOf(PageUrl(hostname, path) + rest, hostname, domain) == SameHost
  {
    assert PageUrl(hostname, path) + rest == "https" + ("://" + hostname) + (path + rest);
    ContainsMiddle("https", "://" + hostname, path + rest);
  }

  /** `group` lists, without duplicates, exactly the links of `done` in bucket `b`. */
  ghost predicate Grouped(group: seq<string>, done: set<string>, b: Bucket, hostname: string, domain: string)
  {
    NoDuplicates(group) && forall l :: l in group <==> l in done && BucketOf(l, hostname, domain) == b
  }

  /** A new link of bucket `b` is appended to the list of `b`. */
  lemma GroupedAdd(group: seq<string>, done: set<string>, link: string, b: Bucket, hostname: string, domain: string)
    requires Grouped(group, done, b, hostname, domain) && link !in done && BucketOf(link, hostname, domain) == b
    ensures Grouped(group + [link], done + {link}, b, hostname, domain)
  {
  }

  /** A new link of another bucket leaves the list of `b` as it is. */
  lemma GroupedKeep(group: seq<string>, done: set<string>, link: string, b: Bucket, hostname: string, domain: string)
    requires Grouped(group, done, b, hostname, domain)
    ensures BucketOf(link, hostname, domain) != b ==> Grouped(group, done + {link}, b, hostname, domain)
  {
  }

  /** Moving one link from the links still to place to the placed ones. */
  lemma MoveOne(done: set<string>, remaining: set<string>, links: set<string>, link: string)
    requires done !! remaining && done + remaining == links && link in remaining
    ensures (done + {link}) !! (remaining - {link}) && (done + {link}) + (remaining - {link}) == links
    ensures |done + {link}| == |done| + 1
  {
  }

  /** The loop of `parse_url` that fills the three lists of `link_dict`, iterating
      over the set of links in an unspecified order. */
  method BucketLinks(links: set<string>, hostname: string, domain: string)
    returns (sameHost: seq<string>, sameDomain: seq<string>, differentDomain: seq<string>)
    ensures forall l :: l in sameHost <==> l in links && BucketOf(l, hostname, domain) == SameHost
    ensures forall l :: l in sameDomain <==> l in links && BucketOf(l, hostname, domain) == SameDomain
    ensures forall l :: l in differentDomain <==> l in links && BucketOf(l, hostname, domain) == DifferentDomain
    ensures NoDuplicates(sameHost) && NoDuplicates(sameDomain) && NoDuplicates(differentDomain)
    ensures |sameHost| + |sameDomain| + |differentDomain| == |links|
  {
    sameHost, sameDomain, differentDomain := [], [], [];
    var remaining := links;
    ghost var done: set<string> := {};
    assert done + remaining == links;
    while remaining != {}
      invariant done !! remaining && done + remaining == links
      invariant Grouped(sameHost, done, SameHost, hostname, domain)
      invariant Grouped(sameDomain, done, SameDomain, hostname, domain)
      invariant Grouped(differentDomain, done, DifferentDomain, hostname, domain)
      invariant |sameHost| + |sameDomain| + |differentDomain| == |done|
      decreases remaining
    {
      var link :| link in remaining;
      MoveOne(done, remaining, links, link);
      var b := BucketOf(link, hostname, domain);
      GroupedKeep(sameHost, done, link, SameHost, hostname, domain);
      GroupedKeep(sameDomain, done, link, SameDomain, hostname, domain);
      GroupedKeep(differentDomain, done, link, DifferentDomain, hostname, domain);
      if b == SameHost {
        GroupedAdd(sameHost, done, link, SameHost, hostname, domain);
        sameHost := sameHost + [link];
      } else if b == SameDomain {
        GroupedAdd(sameDomain, done, link, SameDomain, hostname, domain);
        sameDomain := sameDomain + [link];
      } else {
        GroupedAdd(differentDomain, done, link, DifferentDomain, hostname, domain);
        differentDomain := differentDomain + [link];
      }
      remaining := remaining - {link};
      done := done + {link};
    }
    assert done == links;
  }

  /** The result of `parse_url`: the URL's properties and its page's links by group. */
  datatype ParsedUrl = ParsedUrl(properties: UrlProperties, sameHost: seq<string>,
                                 sameDomain: seq<string>, differentDomain: seq<string>)

  /** `parse_url`, with `urlparse`'s netloc and path and the page's hrefs given. */
  method ParseUrl(netloc: string, parsedPath: string, hrefs: seq<Option<string>>, urljoin: (string, string) -> string)
    returns (r: Result<ParsedUrl, UrlError>)
    ensures r.Failure? <==> UrlPropertiesOf(netloc, parsedPath).Failure?
    ensures r.Success? ==>
              var props := UrlPropertiesOf(netloc, parsedPath).value;
              var links := set h | h in hrefs && !Skipped(h) :: Resolve(PageUrl(props.hostname, props.path), h, urljoin);
              && r.value.properties == props
              && (forall l :: l in r.value.sameHost <==> l in links && BucketOf(l, props.hostname, props.domain) == SameHost)
              && (forall l :: l in r.value.sameDomain <==> l in links && BucketOf(l, props.hostname, props.domain) == SameDomain)
              && (forall l :: l in r.value.differentDomain <==> l in links && BucketOf(l, props.hostname, props.domain) == DifferentDomain)
              && |r.value.sameHost| + |r.value.sameDomain| + |r.value.differentDomain| == |links|
  {
    var props := UrlPropertiesOf(netloc, parsedPath);
    if props.Failure? {
      return Failure(props.error);
    }
    var p := props.value;
    var links := ParsePageForLinks(p.hostname, p.path, hrefs, urljoin);
    var sameHost, sameDomain, differentDomain := BucketLinks(links, p.hostname, p.domain);
    r := Success(ParsedUrl(p, sameHost, sameDomain, differentDomain));
  }
}
