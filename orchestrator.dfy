/**
 The top of the scraper: `scrape_link_wrapper`, which scrapes one link and
 labels the result, and `fetch_interview_data`, which normalises the request,
 collects the links and gathers one record per successfully scraped link.
 */
module ScrapeOrchestrator {
  import opened Wrappers
  import opened Text
  import opened LinkCollector
  import opened DetailExtractor
  import opened Labels

  /** The web site as the scraper sees it: the filtered listing for a company
      and a (normalised) role, and the interview page behind each url. */
  datatype Site = Site(listing: (string, string) -> Listing, detail: string -> DetailPage)

  /** The record one scraped link contributes, if any. */
  function RecordOf(site: Site, link: Link, company: string, roleInput: string): Option<InterviewRecord> {
    LabelRecord(Some(link.title), company, roleInput, Details(site.detail(link.url)))
  }

  /** The records of the links whose pages give a non-empty description, in link order. */
  function Records(site: Site, links: seq<Link>, company: string, roleInput: string): seq<InterviewRecord> {
    if links == [] then []
    else
      var rec := RecordOf(site, links[0], company, roleInput);
      (if rec.Some? then [rec.value] else []) + Records(site, links[1..], company, roleInput)
  }

  /** The links `fetch_interview_data` collects: the listing filtered by the
      normalised role, walked for at least one page. */
  function LinksFor(site: Site, company: string, roleInput: string, pages: int): seq<Link> {
    CollectLinks(site.listing(company, NormaliseRole(roleInput)), ClampPages(pages))
  }

  /** What `fetch_interview_data` returns, up to the order of the records:
      None without links or without a single successful extraction. */
  function InterviewData(site: Site, company: string, roleInput: string, pages: int): (r: Option<seq<InterviewRecord>>)
    ensures r.Some? ==> r.value != [] && LinksFor(site, company, roleInput, pages) != []
  {
    var links := LinksFor(site, company, roleInput, pages);
    if links == [] then None
    else
      var rows := Records(site, links, company, roleInput);
      if rows == [] then None else Some(rows)
  }

  lemma RecordsStep(site: Site, links: seq<Link>, j: nat, company: string, roleInput: string)
    requires j < |links|
    ensures Records(site, links[..j + 1], company, roleInput) ==
      Records(site, links[..j], company, roleInput) +
      (var rec := RecordOf(site, links[j], company, roleInput); if rec.Some? then [rec.value] else [])
  {
    RecordsConcat(site, links[..j], [links[j]], company, roleInput);
    assert links[..j + 1] == links[..j] + [links[j]];
    assert [links[j]][1..] == [];
  }

  lemma {:induction false} RecordsConcat(site: Site, a: seq<Link>, b: seq<Link>, company: string, roleInput: string)
    ensures Records(site, a + b, company, roleInput) == Records(site, a, company, roleInput) + Records(site, b, company, roleInput)
  {
    if a == [] {
      assert a + b == b;
    } else {
      assert (a + b)[0] == a[0];
      assert (a + b)[1..] == a[1..] + b;
      RecordsConcat(site, a[1..], b, company, roleInput);
    }
  }

  /** There are never more rows than links. */
  lemma {:induction false} RecordsBound(site: Site, links: seq<Link>, company: string, roleInput: string)
    ensures |Records(site, links, company, roleInput)| <= |links|
  {
    if links != [] {
      RecordsBound(site, links[1..], company, roleInput);
    }
  }

  /** Every row carries a non-empty description: a link whose page gives None
      or the empty string contributes nothing. */
  lemma {:induction false} RecordsDescribed(site: Site, links: seq<Link>, company: string, roleInput: string)
    ensures forall k :: 0 <= k < |Records(site, links, company, roleInput)| ==>
      Records(site, links, company, roleInput)[k].description != []
  {
    if links != [] {
      RecordsDescribed(site, links[1..], company, roleInput);
    }
  }

  /** A record is a row exactly when some link produces it. */
  lemma {:induction false} RecordsMembers(site: Site, links: seq<Link>, company: string, roleInput: string, r: InterviewRecord)
    ensures r in Records(site, links, company, roleInput) <==>
      exists k :: 0 <= k < |links| && RecordOf(site, links[k], company, roleInput) == Some(r)
  {
    if links != [] {
      var rest := links[1..];
      RecordsMembers(site, rest, company, roleInput, r);
      if exists k :: 0 <= k < |links| && RecordOf(site, links[k], company, roleInput) == Some(r) {
        var k :| 0 <= k < |links| && RecordOf(site, links[k], company, roleInput) == Some(r);
        if k > 0 {
          assert RecordOf(site, rest[k - 1], company, roleInput) == Some(r);
        }
      }
      if r in Records(site, rest, company, roleInput) {
        var k :| 0 <= k < |rest| && RecordOf(site, rest[k], company, roleInput) == Some(r);
        assert RecordOf(site, links[k + 1], company, roleInput) == Some(r);
      }
    }
  }

  /** A link whose title does not hold exactly one `|` is labelled with the
      caller's company and the role exactly as typed, not the normalised one. */
  lemma RawRoleFallback(site: Site, link: Link, company: string, roleInput: string)
    requires Count(link.title, '|') != 1
    requires RecordOf(site, link, company, roleInput).Some?
    ensures RecordOf(site, link, company, roleInput).value.company == company
    ensures RecordOf(site, link, company, roleInput).value.role == roleInput
  {
  }

  /** The result is None exactly when no link is found or no link gives a record. */
  lemma InterviewDataNone(site: Site, company: string, roleInput: string, pages: int)
    ensures InterviewData(site, company, roleInput, pages).None? <==>
      LinksFor(site, company, roleInput, pages) == [] ||
      Records(site, LinksFor(site, company, roleInput, pages), company, roleInput) == []
    ensures InterviewData(site, company, roleInput, pages).Some? ==>
      0 < |InterviewData(site, company, roleInput, pages).value| <= |LinksFor(site, company, roleInput, pages)|
  {
    RecordsBound(site, LinksFor(site, company, roleInput, pages), company, roleInput);
  }

  /** A page count below one is read as one. */
  lemma PagesAtLeastOne(site: Site, company: string, roleInput: string, pages: int)
    requires pages < 1
    ensures InterviewData(site, company, roleInput, pages) == InterviewData(site, company, roleInput, 1)
  {
  }

  /** `scrape_link_wrapper`: scrape the link's page and label a non-empty description. */
  method ScrapeLinkWrapper(site: Site, link: Link, company: string, roleInput: string) returns (rec: Option<InterviewRecord>)
    ensures rec == RecordOf(site, link, company, roleInput)
    ensures rec.Some? ==> rec.value.description != [] && Details(site.detail(link.url)) == Some(rec.value.description)
  {
    var description := ScrapeInterviewDetails(site.detail(link.url));
    if description.Some? && description.value != [] {
      var (c, r) := TitleLabels(Some(link.title), company, roleInput);
      rec := Some(InterviewRecord(c, r, description.value));
    } else {
      rec := None;
    }
  }

  /** `fetch_interview_data`. The worker pool is replaced by a sequential pass
      over the links, so only the multiset of rows is promised. */
  method FetchInterviewData(site: Site, company: string, roleInput: string, pages: int)
    returns (data: Option<seq<InterviewRecord>>)
    ensures data.None? <==> InterviewData(site, company, roleInput, pages).None?
    ensures data.Some? ==> multiset(data.value) == multiset(InterviewData(site, company, roleInput, pages).value)
  {
    var role := NormaliseRole(roleInput);
    var n := ClampPages(pages);
    var links := FetchInterviewLinks(site.listing(company, role), n);
    if links == [] {
      return None;
    }
    var results: seq<InterviewRecord> := [];
    for i := 0 to |links|
      invariant results == Records(site, links[..i], company, roleInput)
    {
      var res := ScrapeLinkWrapper(site, links[i], company, roleInput);
      RecordsStep(site, links, i, company, roleInput);
      if res.Some? {
        results := results + [res.value];
      }
    }
    assert links[..|links|] == links;
    if results != [] {
      data := Some(results);
    } else {
      data := None;
    }
  }
}
