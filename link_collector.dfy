/**
 The link-collection step of the scraper (`fetch_interview_links`). The browser
 is replaced by the listing it would show once the company and role filters are
 applied: a sequence of result pages, each a sequence of cards.
 */
module LinkCollector {
  import opened Wrappers
  import opened Text
  import opened Sequences

  /** The title anchor of a card: its `href` attribute (absent or a string) and its text. */
  datatype Anchor = Anchor(href: Option<string>, text: string)

  /** A result card. `Card(None)` has no title anchor (the lookup raises
      NoSuchElementException); `Broken` raises any other driver error when read. */
  datatype Card = Card(anchor: Option<Anchor>) | Broken

  type Page = seq<Card>

  /** The filtered listing. `filtersApplied` is false when the initial load or a
      filter widget fails; `pages[k]` is result page k + 1, and page k + 2 can be
      reached from it exactly when k + 1 < |pages|. */
  datatype Listing = Listing(filtersApplied: bool, pages: seq<Page>)

  datatype Link = Link(title: string, url: string)

  /** A card contributes a link when it has an anchor whose href is non-empty
      and whose stripped text is non-empty. */
  predicate Keeps(card: Card) {
    && card.Card?
    && card.anchor.Some?
    && card.anchor.value.href.Some?
    && card.anchor.value.href.value != []
    && Strip(card.anchor.value.text) != []
  }

  function LinkOf(card: Card): Link
    requires Keeps(card)
  {
    Link(Strip(card.anchor.value.text), card.anchor.value.href.value)
  }

  /** No card of the page raises a driver error. */
  predicate Intact(cards: Page) {
    forall j :: 0 <= j < |cards| ==> cards[j].Card?
  }

  /** The links read from `cards`, in card order, up to the first broken card. */
  function CardLinks(cards: Page): seq<Link> {
    if cards == [] || cards[0].Broken? then []
    else (if Keeps(cards[0]) then [LinkOf(cards[0])] else []) + CardLinks(cards[1..])
  }

  /** The links read from consecutive pages, up to the first broken card. */
  function PageLinks(pages: seq<Page>): seq<Link> {
    if pages == [] then []
    else CardLinks(pages[0]) + (if Intact(pages[0]) then PageLinks(pages[1..]) else [])
  }

  /** Number of pages the walk can visit: the requested count, cut at the last page. */
  function PagesVisited(l: Listing, pagesToScrape: int): (n: nat)
    ensures n <= |l.pages|
    ensures pagesToScrape >= 0 ==> n <= pagesToScrape
    ensures pagesToScrape <= 0 ==> n == 0
    ensures n == |l.pages| || n == pagesToScrape || (n == 0 && pagesToScrape < 0)
  {
    if pagesToScrape <= 0 then 0
    else if pagesToScrape < |l.pages| then pagesToScrape
    else |l.pages|
  }

  /** What `fetch_interview_links` returns on the listing `l`. */
  function CollectLinks(l: Listing, pagesToScrape: int): (links: seq<Link>)
    ensures links != [] ==> l.filtersApplied && PagesVisited(l, pagesToScrape) > 0
  {
    if l.filtersApplied then PageLinks(l.pages[..PagesVisited(l, pagesToScrape)]) else []
  }

  lemma IntactTail(cards: Page)
    requires cards != [] && Intact(cards)
    ensures cards[0].Card? && Intact(cards[1..])
  {
    assert forall j :: 0 <= j < |cards[1..]| ==> cards[1..][j] == cards[j + 1];
  }

  lemma {:induction false} CardLinksConcat(a: Page, b: Page)
    requires Intact(a)
    ensures CardLinks(a + b) == CardLinks(a) + CardLinks(b)
  {
    if a == [] {
      EmptyConcat(a, b);
    } else {
      TailOfConcat(a, b);
      IntactTail(a);
      CardLinksConcat(a[1..], b);
    }
  }

  lemma {:induction false} PageLinksConcat(a: seq<Page>, b: seq<Page>)
    requires forall k :: 0 <= k < |a| ==> Intact(a[k])
    ensures PageLinks(a + b) == PageLinks(a) + PageLinks(b)
  {
    if a == [] {
      EmptyConcat(a, b);
    } else {
      TailOfConcat(a, b);
      assert forall k :: 0 <= k < |a[1..]| ==> a[1..][k] == a[k + 1];
      PageLinksConcat(a[1..], b);
    }
  }

  lemma CardLinksStep(cards: Page, j: nat)
    requires j < |cards| && Intact(cards[..j])
    ensures cards[j].Card? ==>
      CardLinks(cards[..j + 1]) == CardLinks(cards[..j]) + (if Keeps(cards[j]) then [LinkOf(cards[j])] else [])
    ensures cards[j].Broken? ==> CardLinks(cards) == CardLinks(cards[..j])
  {
    assert cards[..j + 1] == cards[..j] + [cards[j]];
    CardLinksConcat(cards[..j], [cards[j]]);
    assert cards == cards[..j] + cards[j..];
    CardLinksConcat(cards[..j], cards[j..]);
  }

  /** The card has a title anchor that gives exactly `link`. */
  predicate Yields(card: Card, link: Link) {
    Keeps(card) && LinkOf(card) == link
  }

  /** The links of one fault-free page are exactly its kept cards' links. */
  lemma {:induction false} CardLinksMembers(cards: Page, link: Link)
    requires Intact(cards)
    ensures link in CardLinks(cards) <==> exists j :: 0 <= j < |cards| && Yields(cards[j], link)
  {
    if cards != [] {
      var rest := cards[1..];
      assert Intact(rest) by {
        forall j | 0 <= j < |rest| ensures rest[j].Card? { assert rest[j] == cards[j + 1]; }
      }
      CardLinksMembers(rest, link);
      assert CardLinks(cards) == (if Keeps(cards[0]) then [LinkOf(cards[0])] else []) + CardLinks(rest);
      if link in CardLinks(cards) {
        if !Yields(cards[0], link) {
          var j :| 0 <= j < |rest| && Yields(rest[j], link);
          assert Yields(cards[j + 1], link);
        }
      }
      if exists j :: 0 <= j < |cards| && Yields(cards[j], link) {
        var j :| 0 <= j < |cards| && Yields(cards[j], link);
        if j > 0 {
          assert Yields(rest[j - 1], link);
        }
      }
    }
  }

  /** Every collected link has a non-empty url and a non-empty title with no
      surrounding whitespace. */
  lemma {:induction false} CardLinksWellFormed(cards: Page)
    ensures forall k :: 0 <= k < |CardLinks(cards)| ==>
      CardLinks(cards)[k].url != [] && CardLinks(cards)[k].title != [] && Trimmed(CardLinks(cards)[k].title)
  {
    if cards != [] && cards[0].Card? {
      if Keeps(cards[0]) {
        StripSpec(cards[0].anchor.value.text);
      }
      CardLinksWellFormed(cards[1..]);
    }
  }

  lemma {:induction false} PageLinksWellFormed(pages: seq<Page>)
    ensures forall k :: 0 <= k < |PageLinks(pages)| ==>
      PageLinks(pages)[k].url != [] && PageLinks(pages)[k].title != [] && Trimmed(PageLinks(pages)[k].title)
  {
    if pages != [] {
      CardLinksWellFormed(pages[0]);
      PageLinksWellFormed(pages[1..]);
    }
  }

  lemma LinksWellFormed(l: Listing, pagesToScrape: int)
    ensures forall k :: 0 <= k < |CollectLinks(l, pagesToScrape)| ==>
      var link := CollectLinks(l, pagesToScrape)[k];
      link.url != [] && link.title != [] && Trimmed(link.title)
  {
    PageLinksWellFormed(l.pages[..PagesVisited(l, pagesToScrape)]);
  }

  /** Total number of cards on the given pages. */
  function CardTotal(pages: seq<Page>): nat {
    if pages == [] then 0 else |pages[0]| + CardTotal(pages[1..])
  }

  lemma {:induction false} CardLinksBound(cards: Page)
    ensures |CardLinks(cards)| <= |cards|
  {
    if cards != [] && cards[0].Card? {
      CardLinksBound(cards[1..]);
    }
  }

  lemma {:induction false} PageLinksBound(pages: seq<Page>)
    ensures |PageLinks(pages)| <= CardTotal(pages)
  {
    if pages != [] {
      CardLinksBound(pages[0]);
      PageLinksBound(pages[1..]);
    }
  }

  /** At most one link per card on pages 1..min(P, available). */
  lemma LinksBound(l: Listing, pagesToScrape: int)
    ensures |CollectLinks(l, pagesToScrape)| <= CardTotal(l.pages[..PagesVisited(l, pagesToScrape)])
  {
    PageLinksBound(l.pages[..PagesVisited(l, pagesToScrape)]);
  }

  /** No page after `pagesToScrape` is read: appending pages to a listing that
      already has that many changes nothing. */
  lemma LaterPagesUnread(ok: bool, pages: seq<Page>, extra: seq<Page>, pagesToScrape: int)
    requires pagesToScrape <= |pages|
    ensures CollectLinks(Listing(ok, pages + extra), pagesToScrape) == CollectLinks(Listing(ok, pages), pagesToScrape)
  {
    var n := PagesVisited(Listing(ok, pages), pagesToScrape);
    assert PagesVisited(Listing(ok, pages + extra), pagesToScrape) == n;
    assert (pages + extra)[..n] == pages[..n];
  }

  /** A listing with only k < P pages yields the links of pages 1..k, as if
      exactly k pages had been requested: running out of pages is not an error. */
  lemma ShortListing(l: Listing, pagesToScrape: int)
    requires |l.pages| < pagesToScrape
    ensures CollectLinks(l, pagesToScrape) == CollectLinks(l, |l.pages|)
    ensures l.filtersApplied ==> CollectLinks(l, pagesToScrape) == PageLinks(l.pages)
  {
    assert l.pages[..|l.pages|] == l.pages;
  }

  /** Links keep page order, then card order: on fault-free pages the links of a
      prefix of the pages come first. The same url on two pages is kept twice. */
  lemma PageOrder(first: seq<Page>, later: seq<Page>)
    requires forall k :: 0 <= k < |first| ==> Intact(first[k])
    ensures CollectLinks(Listing(true, first + later), |first + later|) == PageLinks(first) + PageLinks(later)
  {
    assert (first + later)[..|first + later|] == first + later;
    PageLinksConcat(first, later);
  }

  /** A page whose card at index |cards| is broken gives the links of the cards before it. */
  lemma BrokenCardStops(cards: Page, rest: Page)
    requires Intact(cards)
    ensures !Intact(cards + [Broken] + rest)
    ensures CardLinks(cards + [Broken] + rest) == CardLinks(cards)
  {
    var bad := cards + [Broken] + rest;
    assert bad[|cards|] == Broken;
    assert bad == cards + ([Broken] + rest);
    CardLinksConcat(cards, [Broken] + rest);
  }

  /** A broken card ends collection with what the earlier cards gave. */
  lemma FaultKeepsCollected(before: seq<Page>, cards: Page, rest: Page, later: seq<Page>)
    requires forall k :: 0 <= k < |before| ==> Intact(before[k])
    requires Intact(cards)
    ensures PageLinks(before + [cards + [Broken] + rest] + later) == PageLinks(before) + CardLinks(cards)
  {
    var bad := cards + [Broken] + rest;
    var tail := [bad] + later;
    assert before + [bad] + later == before + tail;
    PageLinksConcat(before, tail);
    BrokenCardStops(cards, rest);
    assert tail[0] == bad;
    assert PageLinks(tail) == CardLinks(bad);
  }

  /** Pages 1..n have no broken card. */
  predicate PrefixIntact(pages: seq<Page>, n: nat)
    requires n <= |pages|
  {
    forall k :: 0 <= k < n ==> Intact(pages[k])
  }

  /** Reading page p (1-based) after fault-free pages 1..p-1 adds that page's links. */
  lemma PageStep(pages: seq<Page>, p: nat)
    requires 1 <= p <= |pages|
    requires PrefixIntact(pages, p - 1)
    ensures PageLinks(pages[..p]) == PageLinks(pages[..p - 1]) + CardLinks(pages[p - 1])
    ensures Intact(pages[p - 1]) ==> PrefixIntact(pages, p)
  {
    assert pages[..p] == pages[..p - 1] + [pages[p - 1]];
    PageLinksConcat(pages[..p - 1], [pages[p - 1]]);
  }

  /** A broken card on page p ends the walk over pages 1..n with page p's earlier links. */
  lemma BrokenStops(pages: seq<Page>, p: nat, n: nat)
    requires 1 <= p <= n <= |pages|
    requires PrefixIntact(pages, p - 1)
    requires !Intact(pages[p - 1])
    ensures PageLinks(pages[..n]) == PageLinks(pages[..p - 1]) + CardLinks(pages[p - 1])
  {
    assert pages[..n] == pages[..p - 1] + pages[p - 1..n];
    PageLinksConcat(pages[..p - 1], pages[p - 1..n]);
  }

  /** `fetch_interview_links`: walks pages 1..pagesToScrape, keeps the cards with
      an href and a non-empty stripped title, stops early when the next page does
      not exist, and returns what it has collected when a card raises an error. */
  method FetchInterviewLinks(l: Listing, pagesToScrape: int) returns (links: seq<Link>)
    ensures links == CollectLinks(l, pagesToScrape)
  {
    links := [];
    if !l.filtersApplied {
      return;
    }
    var last := if pagesToScrape < 0 then 0 else pagesToScrape;
    ghost var read: nat := 0;
    for page := 1 to last + 1
      invariant read == if page - 1 < |l.pages| then page - 1 else |l.pages|
      invariant PrefixIntact(l.pages, read)
      invariant links == PageLinks(l.pages[..read])
    {
      var cards := if page <= |l.pages| then l.pages[page - 1] else [];
      var found, faulted := ReadCards(cards);
      links := links + found;
      if faulted {
        assert page <= |l.pages| && read == page - 1;
        BrokenStops(l.pages, page, PagesVisited(l, pagesToScrape));
        return;
      }
      if page <= |l.pages| {
        PageStep(l.pages, page);
        read := page;
      }
      if page < last && page + 1 > |l.pages| {
        break;
      }
    }
  }

  /** The inner loop of `fetch_interview_links` over the cards of one page: the
      links it appends, and whether a card raised a driver error. */
  method ReadCards(cards: Page) returns (found: seq<Link>, faulted: bool)
    ensures found == CardLinks(cards)
    ensures faulted == !Intact(cards)
  {
    found := [];
    for j := 0 to |cards|
      invariant Intact(cards[..j])
      invariant found == CardLinks(cards[..j])
    {
      CardLinksStep(cards, j);
      if cards[j].Broken? {
        return found, true;
      }
      if Keeps(cards[j]) {
        found := found + [LinkOf(cards[j])];
      }
    }
    assert cards[..|cards|] == cards;
    faulted := false;
  }
}
