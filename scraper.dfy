/**
 * The crawler: from the hotel catalog page to one list of review opinions
 * per hotel. Each page fetch is a call of an abstract oracle `fetch` that
 * either gives back the parsed page or `None` (a network error or an HTTP
 * error status).
 */
module Scraper {
  import opened Wrappers
  import opened Text
  import opened Html

  const CatalogUrl: string := "https://www.wakacje.pl/hotele/"
  const ReviewPrefix: string := "https://www.wakacje.pl/opinie/hotele/"
  const SiteRoot: string := "https://www.wakacje.pl"

  /** The structural markers the crawler relies on. */
  const Carousel: Marker := Marker("div", Some("swiper-wrapper"))
  const Anchor: Marker := Marker("a", None)
  const OpinionsList: Marker := Marker("div", Some("opinions__list"))
  const OpinionText: Marker := Marker("p", Some("opinion__attributes-content"))
  const NextControl: Marker := Marker("li", Some("pagination__item--next"))

  /**
   * The exceptions the program does not catch. Either one ends the whole
   * run: no result file is written.
   */
  datatype Crash =
    | HrefMissing        // a carousel anchor without `href`: `None.split("/")`
    | NextAnchorMissing  // a next-page item without an `<a>`: `None.get("href")`

  datatype Outcome<T> = Ok(value: T) | Crashed(crash: Crash)

  /** Puts `prefix` in front of a successful list result; a crash stays a crash. */
  function Prepend<T>(prefix: seq<T>, r: Outcome<seq<T>>): Outcome<seq<T>>
  {
    match r
    case Ok(rest) => Ok(prefix + rest)
    case Crashed(c) => Crashed(c)
  }

  lemma PrependNothing<T>(r: Outcome<seq<T>>)
    ensures Prepend([], r) == r
  {
    match r
    case Ok(rest) => assert [] + rest == rest;
    case Crashed(_) =>
  }

  lemma PrependPrepend<T>(a: seq<T>, b: seq<T>, r: Outcome<seq<T>>)
    ensures Prepend(a, Prepend(b, r)) == Prepend(a + b, r)
  {
    match r
    case Ok(rest) => assert a + (b + rest) == (a + b) + rest;
    case Crashed(_) =>
  }

  // ---------------------------------------------------------------------
  // The href rewrite of parse_hotel_links
  // ---------------------------------------------------------------------

  /** The review-listing address before the `h` is inserted: the prefix, then what follows the third `/`. */
  function ReviewBase(href: string): (url: string)
    ensures url == ReviewPrefix + AfterNth(href, '/', 3)
  {
    JoinSplitFrom(href, '/', 3);
    ReviewPrefix + Join(DropFirst(Split(href, '/'), 3), '/')
  }

  /** Inserts `h` right after the last `-`, or in front when there is no `-`. */
  function InsertH(url: string): string
  {
    var k := RFind(url, '-') + 1;
    url[..k] + "h" + url[k..]
  }

  /** The inserted `h` is the only change: deleting it gives back the address. */
  lemma InsertHSpec(url: string)
    ensures |InsertH(url)| == |url| + 1
    ensures var k := RFind(url, '-') + 1; InsertH(url)[k] == 'h'
    ensures var k := RFind(url, '-') + 1; InsertH(url)[..k] + InsertH(url)[k + 1..] == url
  {
    var k := RFind(url, '-') + 1;
    InsertAt(url, k, 'h');
    assert InsertH(url) == url[..k] + ['h'] + url[k..];
  }

  /** With a `-` in the address, the `h` follows the last `-` and no `-` comes after it. */
  lemma InsertHAfterLastDash(url: string)
    requires '-' in url
    ensures forall j :: 0 <= j <= RFind(url, '-') ==> InsertH(url)[j] == url[j]
    ensures InsertH(url)[RFind(url, '-')] == '-'
    ensures forall j :: RFind(url, '-') + 1 < j < |InsertH(url)| ==> InsertH(url)[j] != '-'
  {
    var k := RFind(url, '-') + 1;
    InsertAt(url, k, 'h');
    assert InsertH(url) == url[..k] + ['h'] + url[k..];
  }

  /** Without a `-`, `rfind` gives -1 and the `h` goes in front. */
  lemma InsertHWithoutDash(url: string)
    requires '-' !in url
    ensures InsertH(url) == "h" + url
  {
    assert RFind(url, '-') == -1;
    InsertAt(url, 0, 'h');
    assert InsertH(url) == url[..0] + ['h'] + url[0..];
  }

  lemma PrefixHasNoDash()
    ensures '-' !in ReviewPrefix
  {
    assert forall k :: 0 <= k < |ReviewPrefix| ==> ReviewPrefix[k] != '-';
  }

  /** Since the prefix holds no `-`, the last `-` of the address lies in what follows the prefix. */
  lemma {:induction false} LastDashAfterPrefix(rest: string)
    ensures '-' in ReviewPrefix + rest <==> '-' in rest
    ensures '-' in rest ==> |ReviewPrefix| <= RFind(ReviewPrefix + rest, '-')
  {
    var url := ReviewPrefix + rest;
    PrefixHasNoDash();
    assert forall k :: 0 <= k < |rest| ==> url[|ReviewPrefix| + k] == rest[k];
    if '-' in rest {
      var j :| 0 <= j < |rest| && rest[j] == '-';
      assert url[|ReviewPrefix| + j] == '-';
    }
  }

  /** The address one carousel href is rewritten to. */
  function RewriteHref(href: string): string
  {
    InsertH(ReviewBase(href))
  }

  /**
   * The rewritten address is the review-listing address (the prefix followed
   * by the text after the third `/` of the href) with one `h` inserted.
   */
  lemma RewriteHrefSpec(href: string)
    ensures var url := ReviewBase(href); var k := RFind(url, '-') + 1;
      && |RewriteHref(href)| == |url| + 1
      && RewriteHref(href)[k] == 'h'
      && RewriteHref(href)[..k] + RewriteHref(href)[k + 1..] == url
  {
    InsertHSpec(ReviewBase(href));
  }

  /** When the text after the third `/` holds a `-`, the rewritten address starts with the prefix. */
  lemma RewriteHrefKeepsPrefix(href: string)
    requires '-' in AfterNth(href, '/', 3)
    ensures |ReviewPrefix| <= |RewriteHref(href)|
    ensures RewriteHref(href)[..|ReviewPrefix|] == ReviewPrefix
  {
    var url := ReviewBase(href);
    LastDashAfterPrefix(AfterNth(href, '/', 3));
    InsertHAfterLastDash(url);
    var r := RewriteHref(href);
    forall j | 0 <= j < |ReviewPrefix| ensures r[j] == ReviewPrefix[j] {
      assert r[j] == url[j];
    }
  }

  /** The `h` sits right after the last `-`, and no `-` follows it. */
  lemma RewriteHrefWithDash(href: string)
    requires '-' in AfterNth(href, '/', 3)
    ensures var k := RFind(ReviewBase(href), '-') + 1;
      && |ReviewPrefix| < k < |RewriteHref(href)|
      && RewriteHref(href)[k - 1] == '-' && RewriteHref(href)[k] == 'h'
      && '-' !in RewriteHref(href)[k + 1..]
  {
    var url := ReviewBase(href);
    LastDashAfterPrefix(AfterNth(href, '/', 3));
    InsertHSpec(url);
    InsertHAfterLastDash(url);
    var r := RewriteHref(href);
    var k := RFind(url, '-') + 1;
    var after := r[k + 1..];
    forall j | 0 <= j < |after| ensures after[j] != '-' {
      assert after[j] == r[k + 1 + j];
    }
  }

  /** Without a `-` after the third `/`, the rewritten address is `h` followed by the un-inserted one. */
  lemma RewriteHrefWithoutDash(href: string)
    requires '-' !in AfterNth(href, '/', 3)
    ensures RewriteHref(href) == "h" + ReviewPrefix + AfterNth(href, '/', 3)
  {
    LastDashAfterPrefix(AfterNth(href, '/', 3));
    InsertHWithoutDash(ReviewBase(href));
  }

  /**
   * A site-relative href `/a/b/rest` loses its first two segments together
   * with the empty piece before its leading `/`: only `rest` is kept, and
   * the `h` goes after the last `-` of `rest`.
   */
  lemma RewriteRelativeHref(a: string, b: string, rest: string)
    requires '/' !in a && '/' !in b
    ensures ReviewBase("/" + a + "/" + b + "/" + rest) == ReviewPrefix + rest
    ensures RewriteHref("/" + a + "/" + b + "/" + rest) == InsertH(ReviewPrefix + rest)
  {
    var href := "/" + a + "/" + b + "/" + rest;
    assert href == [] + ['/'] + (a + ['/'] + (b + ['/'] + rest));
    AfterNthPiece([], '/', a + ['/'] + (b + ['/'] + rest), 2);
    AfterNthPiece(a, '/', b + ['/'] + rest, 1);
    AfterNthPiece(b, '/', rest, 0);
  }

  // ---------------------------------------------------------------------
  // parse_hotel_links
  // ---------------------------------------------------------------------

  /**
   * The `rewrite` of every anchor's href, in order, or a crash at the first
   * anchor without href. parse_hotel_links uses it with `RewriteHref`.
   */
  function RewriteAll(anchors: seq<Element>, rewrite: string -> string): (r: Outcome<seq<string>>)
    ensures r.Crashed? ==> r.crash == HrefMissing
    ensures r.Ok? ==> |r.value| == |anchors|
  {
    if anchors == [] then Ok([])
    else
      match anchors[0].href
      case None => Crashed(HrefMissing)
      case Some(h) => Prepend([rewrite(h)], RewriteAll(anchors[1..], rewrite))
  }

  /**
   * The rewrite succeeds exactly when every anchor has an href, and then
   * gives the rewritten address of each anchor, in order.
   */
  lemma {:induction false} RewriteAllSpec(anchors: seq<Element>, rewrite: string -> string)
    ensures RewriteAll(anchors, rewrite).Ok? <==> forall i :: 0 <= i < |anchors| ==> anchors[i].href.Some?
    ensures RewriteAll(anchors, rewrite).Ok? ==>
      forall i :: 0 <= i < |anchors| ==> RewriteAll(anchors, rewrite).value[i] == rewrite(anchors[i].href.value)
    decreases |anchors|
  {
    if anchors != [] {
      RewriteAllSpec(anchors[1..], rewrite);
      assert forall i :: 1 <= i < |anchors| ==> anchors[1..][i - 1] == anchors[i];
      if anchors[0].href.Some? {
        var rest := RewriteAll(anchors[1..], rewrite);
        if rest.Ok? {
          var us := [rewrite(anchors[0].href.value)] + rest.value;
          assert RewriteAll(anchors, rewrite) == Ok(us);
          assert forall i :: 1 <= i < |anchors| ==> us[i] == rest.value[i - 1];
        }
      }
    }
  }

  /** What parse_hotel_links computes on the catalog page. */
  function HotelLinks(catalog: Element): Outcome<seq<string>>
  {
    match Find(catalog, Carousel)
    case None => Ok([])
    case Some(carousel) => RewriteAll(FindAll(carousel, Anchor), RewriteHref)
  }

  /** The loop of parse_hotel_links: the anchors' addresses, each passed through `rewrite`, until an anchor has no href. */
  method RewriteAnchors(anchors: seq<Element>, rewrite: string -> string) returns (r: Outcome<seq<string>>)
    ensures r == RewriteAll(anchors, rewrite)
  {
    var urls := [];
    assert anchors[0..] == anchors;
    PrependNothing(RewriteAll(anchors, rewrite));
    for i := 0 to |anchors|
      invariant RewriteAll(anchors, rewrite) == Prepend(urls, RewriteAll(anchors[i..], rewrite))
    {
      assert anchors[i..][1..] == anchors[i + 1..];
      var href := anchors[i].href;
      assert anchors[i..][0] == anchors[i];
      if href.None? {
        return Crashed(HrefMissing);
      }
      var url := rewrite(href.value);
      PrependPrepend(urls, [url], RewriteAll(anchors[i + 1..], rewrite));
      urls := urls + [url];
    }
    assert anchors[|anchors|..] == [] && urls + [] == urls;
    r := Ok(urls);
  }

  method ParseHotelLinks(catalog: Element) returns (r: Outcome<seq<string>>)
    ensures r == HotelLinks(catalog)
    ensures Find(catalog, Carousel).None? ==> r == Ok([])
    ensures Find(catalog, Carousel).Some? ==>
      var anchors := FindAll(Find(catalog, Carousel).value, Anchor);
      && (r.Ok? <==> forall i :: 0 <= i < |anchors| ==> anchors[i].href.Some?)
      && (r.Ok? ==> |r.value| == |anchors|
                    && forall i :: 0 <= i < |anchors| ==> r.value[i] == RewriteHref(anchors[i].href.value))
  {
    var carousel := Find(catalog, Carousel);
    if carousel.None? {
      return Ok([]);
    }
    var anchors := FindAll(carousel.value, Anchor);
    r := RewriteAnchors(anchors, RewriteHref);
    RewriteAllSpec(anchors, RewriteHref);
  }

  // ---------------------------------------------------------------------
  // extract_opinions
  // ---------------------------------------------------------------------

  /** The stripped text of each element, in order. */
  function StrippedTexts(ps: seq<Element>): seq<string>
  {
    if ps == [] then [] else [Strip(ps[0].text)] + StrippedTexts(ps[1..])
  }

  /** The stripped text of every opinion paragraph inside the opinions list, in document order. */
  function ExtractOpinions(page: Element): seq<string>
  {
    match Find(page, OpinionsList)
    case None => []
    case Some(list) => StrippedTexts(FindAll(list, OpinionText))
  }

  lemma {:induction false} StrippedTextsSpec(ps: seq<Element>)
    ensures |StrippedTexts(ps)| == |ps|
    ensures forall i :: 0 <= i < |ps| ==> StrippedTexts(ps)[i] == Strip(ps[i].text)
    decreases |ps|
  {
    if ps != [] {
      StrippedTextsSpec(ps[1..]);
      assert forall i :: 1 <= i < |ps| ==> ps[1..][i - 1] == ps[i];
    }
  }

  /**
   * Without an opinions list there are no opinions; otherwise there is one
   * opinion per opinion paragraph of the list, in document order: its text
   * with the surrounding white space removed.
   */
  lemma ExtractOpinionsSpec(page: Element)
    ensures Find(page, OpinionsList).None? ==> ExtractOpinions(page) == []
    ensures Find(page, OpinionsList).Some? ==>
      var ps := FindAll(Find(page, OpinionsList).value, OpinionText);
      && |ExtractOpinions(page)| == |ps|
      && forall i :: 0 <= i < |ps| ==> ExtractOpinions(page)[i] == Strip(ps[i].text)
    ensures forall i :: 0 <= i < |ExtractOpinions(page)| ==>
      var o := ExtractOpinions(page)[i]; o != [] ==> !IsSpace(o[0]) && !IsSpace(o[|o| - 1])
  {
    if Find(page, OpinionsList).Some? {
      var ps := FindAll(Find(page, OpinionsList).value, OpinionText);
      StrippedTextsSpec(ps);
      forall i | 0 <= i < |ps|
        ensures var o := Strip(ps[i].text); o != [] ==> !IsSpace(o[0]) && !IsSpace(o[|o| - 1])
      {
        StripSpec(ps[i].text);
      }
    }
  }

  // ---------------------------------------------------------------------
  // scrape_hotel_opinions
  // ---------------------------------------------------------------------

  /** The absolute address behind a next-page control; a control without `<a>` crashes. */
  function NextPageUrl(control: Element): (r: Outcome<string>)
    ensures Find(control, Anchor).None? <==> r == Crashed(NextAnchorMissing)
    ensures r.Crashed? ==> r.crash == NextAnchorMissing
    ensures r.Ok? ==> |SiteRoot| <= |r.value| && r.value[..|SiteRoot|] == SiteRoot
    ensures r.Ok? && Find(control, Anchor).value.href.Some? ==>
      r.value == SiteRoot + Find(control, Anchor).value.href.value
    ensures r.Ok? && Find(control, Anchor).value.href.None? ==> r.value == SiteRoot + "None"
  {
    match Find(control, Anchor)
    case None => Crashed(NextAnchorMissing)
    case Some(a) => Ok(SiteRoot + (if a.href.Some? then a.href.value else "None"))
  }

  /** Why a walk over review pages ended. */
  datatype Stop =
    | NoNextPage     // the last page had no next-page control
    | FetchFailed    // the last fetch gave nothing back
    | FuelExhausted  // the model's bound on next-page fetches was reached

  /** The opinions gathered, every address fetched in order, and why the walk ended. */
  datatype Walk = Walk(opinions: seq<string>, fetched: seq<string>, stop: Stop)

  function Then(opinions: seq<string>, fetched: seq<string>, r: Outcome<Walk>): Outcome<Walk>
  {
    match r
    case Ok(w) => Ok(Walk(opinions + w.opinions, fetched + w.fetched, w.stop))
    case Crashed(c) => Crashed(c)
  }

  lemma ThenNothing(r: Outcome<Walk>)
    ensures Then([], [], r) == r
  {
    match r
    case Ok(w) =>
      assert [] + w.opinions == w.opinions && [] + w.fetched == w.fetched;
    case Crashed(_) =>
  }

  lemma ThenThen(a: seq<string>, f: seq<string>, b: seq<string>, g: seq<string>, r: Outcome<Walk>)
    ensures Then(a, f, Then(b, g, r)) == Then(a + b, f + g, r)
  {
    match r
    case Ok(w) =>
      assert a + (b + w.opinions) == (a + b) + w.opinions;
      assert f + (g + w.fetched) == (f + g) + w.fetched;
    case Crashed(_) =>
  }

  /**
   * What the crawler reads off one review page: its opinions and, when it has
   * a next-page control, the address that control leads to (or the crash
   * computing that address causes).
   */
  datatype Reading = Reading(opinions: seq<string>, next: Option<Outcome<string>>)

  /** `extract_opinions(soup)`, and the `next_page_url` of `soup.find("li", class_="pagination__item--next")`. */
  function ReadPage(page: Element): Reading
  {
    Reading(ExtractOpinions(page),
            match Find(page, NextControl)
            case None => None
            case Some(control) => Some(NextPageUrl(control)))
  }

  /**
   * The rest of a walk, given what the next-page control of the current page
   * leads to (if there is one): at most `fuel` more pages are fetched. The walk only depends on
   * what `read` returns for each page, so it is stated for any reader and
   * used with `ReadPage`.
   */
  function WalkFrom(fetch: string -> Option<Element>, read: Element -> Reading,
                    link: Option<Outcome<string>>, fuel: nat): (r: Outcome<Walk>)
    ensures r.Ok? ==> |r.value.fetched| <= fuel
    decreases fuel
  {
    match link
    case None => Ok(Walk([], [], NoNextPage))
    case Some(target) =>
      if fuel == 0 then Ok(Walk([], [], FuelExhausted))
      else
        match target
        case Crashed(e) => Crashed(e)
        case Ok(url) =>
          match fetch(url)
          case None => Ok(Walk([], [url], FetchFailed))
          case Some(next) =>
            Then(read(next).opinions, [url], WalkFrom(fetch, read, read(next).next, fuel - 1))
  }

  /** A whole walk from `url`: the first page, then the pages after it. */
  function ScrapeWith(fetch: string -> Option<Element>, read: Element -> Reading, url: string, fuel: nat)
    : (r: Outcome<Walk>)
    ensures r.Ok? ==> 1 <= |r.value.fetched| <= fuel + 1 && r.value.fetched[0] == url
  {
    match fetch(url)
    case None => Ok(Walk([], [url], FetchFailed))
    case Some(page) => Then(read(page).opinions, [url], WalkFrom(fetch, read, read(page).next, fuel))
  }

  /** What scrape_hotel_opinions gathers from `url`, with at most `fuel` next-page fetches. */
  function Scrape(fetch: string -> Option<Element>, url: string, fuel: nat): Outcome<Walk>
  {
    ScrapeWith(fetch, ReadPage, url, fuel)
  }

  /** Gathered opinions and fetched addresses are kept whatever way the walk ends. */
  lemma ThenStop(opinions: seq<string>, fetched: seq<string>, last: seq<string>, stop: Stop)
    ensures Then(opinions, fetched, Ok(Walk([], last, stop))) == Ok(Walk(opinions, fetched + last, stop))
  {
    assert opinions + [] == opinions;
  }

  /**
   * The pagination loop: starting from what was gathered so far and the
   * current page's next-page link, follow next-page links until there is
   * none, a fetch fails, or `fuel` fetches have been made.
   */
  method FollowPages(fetch: string -> Option<Element>, read: Element -> Reading,
                     opinions0: seq<string>, fetched0: seq<string>, link: Option<Outcome<string>>, fuel: nat)
    returns (r: Outcome<Walk>)
    ensures r == Then(opinions0, fetched0, WalkFrom(fetch, read, link, fuel))
  {
    var opinions := opinions0;
    var fetched := fetched0;
    var next := link;
    var budget := fuel;
    while next.Some?
      invariant Then(opinions0, fetched0, WalkFrom(fetch, read, link, fuel))
             == Then(opinions, fetched, WalkFrom(fetch, read, next, budget))
      decreases budget
    {
      if budget == 0 {
        ThenStop(opinions, fetched, [], FuelExhausted);
        assert fetched + [] == fetched;
        return Ok(Walk(opinions, fetched, FuelExhausted));
      }
      var nextUrl := next.value;
      if nextUrl.Crashed? {
        return Crashed(nextUrl.crash);
      }
      var soup := fetch(nextUrl.value);
      if soup.None? {
        ThenStop(opinions, fetched, [nextUrl.value], FetchFailed);
        return Ok(Walk(opinions, fetched + [nextUrl.value], FetchFailed));
      }
      var reading := read(soup.value);
      ThenThen(opinions, fetched, reading.opinions, [nextUrl.value],
               WalkFrom(fetch, read, reading.next, budget - 1));
      opinions := opinions + reading.opinions;
      fetched := fetched + [nextUrl.value];
      next := reading.next;
      budget := budget - 1;
    }
    ThenStop(opinions, fetched, [], NoNextPage);
    assert fetched + [] == fetched;
    r := Ok(Walk(opinions, fetched, NoNextPage));
  }

  /** scrape_hotel_opinions: the first page, then the pagination loop. */
  method ScrapeHotelOpinions(fetch: string -> Option<Element>, url: string, fuel: nat)
    returns (r: Outcome<Walk>)
    ensures r == Scrape(fetch, url, fuel)
    ensures fetch(url).None? ==> r == Ok(Walk([], [url], FetchFailed))
  {
    var soup := fetch(url);
    if soup.None? {
      return Ok(Walk([], [url], FetchFailed));
    }
    var reading := ReadPage(soup.value);
    r := FollowPages(fetch, ReadPage, reading.opinions, [url], reading.next, fuel);
  }

  // ---------------------------------------------------------------------
  // Properties of the walk over a chain of pages
  // ---------------------------------------------------------------------

  /** `page` has a next-page control whose address is `url`. */
  ghost predicate LinksTo(read: Element -> Reading, page: Element, url: string)
  {
    read(page).next == Some(Ok(url))
  }

  /**
   * `pages` are fetched from `urls`, and each page links to the address of
   * the next one.
   */
  ghost predicate IsChain(fetch: string -> Option<Element>, read: Element -> Reading,
                          urls: seq<string>, pages: seq<Element>)
    decreases |pages|
  {
    && |urls| == |pages|
    && (|pages| >= 1 ==>
         && fetch(urls[0]) == Some(pages[0])
         && (|pages| >= 2 ==> LinksTo(read, pages[0], urls[1]))
         && IsChain(fetch, read, urls[1..], pages[1..]))
  }

  /** The opinions of the pages, page after page. */
  function AllOpinions(read: Element -> Reading, pages: seq<Element>): seq<string>
  {
    if pages == [] then [] else read(pages[0]).opinions + AllOpinions(read, pages[1..])
  }

  /** Walking on from the first page of a chain passes through all the others. */
  lemma {:induction false} WalkFromChain(fetch: string -> Option<Element>, read: Element -> Reading,
                                         urls: seq<string>, pages: seq<Element>, fuel: nat)
    requires |pages| >= 1 && IsChain(fetch, read, urls, pages)
    requires fuel >= |pages| - 1
    ensures WalkFrom(fetch, read, read(pages[0]).next, fuel)
         == Then(AllOpinions(read, pages[1..]), urls[1..],
                 WalkFrom(fetch, read, read(pages[|pages| - 1]).next, fuel - (|pages| - 1)))
    decreases |pages|
  {
    var tail := WalkFrom(fetch, read, read(pages[|pages| - 1]).next, fuel - (|pages| - 1));
    if |pages| == 1 {
      assert AllOpinions(read, pages[1..]) == [] && urls[1..] == [];
      ThenNothing(tail);
    } else {
      var n := |pages| - 1;
      var ops, tailOps, tailUrls := read(pages[1]).opinions, AllOpinions(read, pages[2..]), urls[2..];
      var rest := WalkFrom(fetch, read, read(pages[1]).next, fuel - 1);
      assert WalkFrom(fetch, read, read(pages[0]).next, fuel) == Then(ops, [urls[1]], rest);
      WalkFromChain(fetch, read, urls[1..], pages[1..], fuel - 1);
      assert pages[1..][1..] == pages[2..] && urls[1..][1..] == tailUrls;
      assert pages[1..][n - 1] == pages[n] && fuel - 1 - (n - 1) == fuel - n;
      assert rest == Then(tailOps, tailUrls, tail);
      ThenThen(ops, [urls[1]], tailOps, tailUrls, tail);
      assert AllOpinions(read, pages[1..]) == ops + tailOps;
      assert urls[1..] == [urls[1]] + tailUrls;
    }
  }

  /** A walk from the first address of a chain gathers the chain's opinions, then goes on from its last page. */
  lemma ScrapeChain(fetch: string -> Option<Element>, read: Element -> Reading,
                    urls: seq<string>, pages: seq<Element>, fuel: nat)
    requires |pages| >= 1 && IsChain(fetch, read, urls, pages)
    requires fuel >= |pages| - 1
    ensures ScrapeWith(fetch, read, urls[0], fuel)
         == Then(AllOpinions(read, pages), urls,
                 WalkFrom(fetch, read, read(pages[|pages| - 1]).next, fuel - (|pages| - 1)))
  {
    WalkFromChain(fetch, read, urls, pages, fuel);
    assert urls == [urls[0]] + urls[1..];
    assert AllOpinions(read, pages) == read(pages[0]).opinions + AllOpinions(read, pages[1..]);
    ThenThen(read(pages[0]).opinions, [urls[0]], AllOpinions(read, pages[1..]), urls[1..],
             WalkFrom(fetch, read, read(pages[|pages| - 1]).next, fuel - (|pages| - 1)));
  }

  /**
   * A chain of fetched pages whose last page has no next-page control yields
   * the opinions of all its pages in order, after exactly one fetch per page.
   */
  lemma ScrapeChainToEnd(fetch: string -> Option<Element>, urls: seq<string>, pages: seq<Element>, fuel: nat)
    requires |pages| >= 1 && IsChain(fetch, ReadPage, urls, pages)
    requires Find(pages[|pages| - 1], NextControl).None?
    requires fuel >= |pages| - 1
    ensures Scrape(fetch, urls[0], fuel) == Ok(Walk(AllOpinions(ReadPage, pages), urls, NoNextPage))
  {
    ScrapeChain(fetch, ReadPage, urls, pages, fuel);
    ThenStop(AllOpinions(ReadPage, pages), urls, [], NoNextPage);
    assert urls + [] == urls;
  }

  /**
   * When the page after a chain cannot be fetched, the walk stops and keeps
   * exactly the opinions of the pages fetched before.
   */
  lemma ScrapeChainThenFailure(fetch: string -> Option<Element>, urls: seq<string>, pages: seq<Element>,
                               failed: string, fuel: nat)
    requires |pages| >= 1 && IsChain(fetch, ReadPage, urls, pages)
    requires LinksTo(ReadPage, pages[|pages| - 1], failed) && fetch(failed).None?
    requires fuel >= |pages|
    ensures Scrape(fetch, urls[0], fuel) == Ok(Walk(AllOpinions(ReadPage, pages), urls + [failed], FetchFailed))
  {
    ScrapeChain(fetch, ReadPage, urls, pages, fuel);
    ThenStop(AllOpinions(ReadPage, pages), urls, [failed], FetchFailed);
  }

  /** Only a walk longer than `fuel + 1` pages is cut short by the bound. */
  lemma ScrapeChainOutOfFuel(fetch: string -> Option<Element>, urls: seq<string>, pages: seq<Element>, fuel: nat)
    requires |pages| >= 1 && IsChain(fetch, ReadPage, urls, pages)
    requires Find(pages[|pages| - 1], NextControl).Some?
    requires fuel == |pages| - 1
    ensures Scrape(fetch, urls[0], fuel) == Ok(Walk(AllOpinions(ReadPage, pages), urls, FuelExhausted))
  {
    ScrapeChain(fetch, ReadPage, urls, pages, fuel);
    ThenStop(AllOpinions(ReadPage, pages), urls, [], FuelExhausted);
    assert urls + [] == urls;
  }

  // ---------------------------------------------------------------------
  // main
  // ---------------------------------------------------------------------

  /** One entry of the result file. */
  datatype HotelResult = HotelResult(hotelUrl: string, opinions: seq<string>)

  /** The walks over the hotels, one entry per hotel in order; the first crash ends everything. */
  function ScrapeAll(fetch: string -> Option<Element>, links: seq<string>, fuel: nat): Outcome<seq<HotelResult>>
  {
    if links == [] then Ok([])
    else
      match Scrape(fetch, links[0], fuel)
      case Crashed(c) => Crashed(c)
      case Ok(w) => Prepend([HotelResult(links[0], w.opinions)], ScrapeAll(fetch, links[1..], fuel))
  }

  /**
   * The aggregation succeeds exactly when no hotel's walk crashes, and then
   * holds one entry per hotel link, in the order of the links, with the
   * opinions of that hotel's walk.
   */
  lemma {:induction false} ScrapeAllSpec(fetch: string -> Option<Element>, links: seq<string>, fuel: nat)
    ensures var r := ScrapeAll(fetch, links, fuel);
      && (r.Ok? <==> forall i :: 0 <= i < |links| ==> Scrape(fetch, links[i], fuel).Ok?)
      && (r.Ok? ==> |r.value| == |links|)
      && (r.Ok? ==> forall i :: 0 <= i < |links| ==>
            r.value[i] == HotelResult(links[i], Scrape(fetch, links[i], fuel).value.opinions))
    decreases |links|
  {
    if links != [] {
      ScrapeAllSpec(fetch, links[1..], fuel);
      var first := Scrape(fetch, links[0], fuel);
      if first.Ok? {
        assert forall i :: 1 <= i < |links| ==> links[1..][i - 1] == links[i];
      }
    }
  }

  /** What main collects before writing the result file. */
  function CrawlResult(fetch: string -> Option<Element>, fuel: nat): Outcome<seq<HotelResult>>
  {
    match fetch(CatalogUrl)
    case None => Ok([])
    case Some(catalog) =>
      match HotelLinks(catalog)
      case Crashed(c) => Crashed(c)
      case Ok(links) => ScrapeAll(fetch, links, fuel)
  }

  /** The loop of main over the hotel links: one walk per link, stopping at the first crash. */
  method ScrapeHotels(fetch: string -> Option<Element>, hotelUrls: seq<string>, fuel: nat) returns (r: Outcome<seq<HotelResult>>)
    ensures r == ScrapeAll(fetch, hotelUrls, fuel)
  {
    var data := [];
    assert hotelUrls[0..] == hotelUrls;
    PrependNothing(ScrapeAll(fetch, hotelUrls, fuel));
    for i := 0 to |hotelUrls|
      invariant ScrapeAll(fetch, hotelUrls, fuel) == Prepend(data, ScrapeAll(fetch, hotelUrls[i..], fuel))
    {
      assert hotelUrls[i..][1..] == hotelUrls[i + 1..];
      assert hotelUrls[i..][0] == hotelUrls[i];
      var walk := ScrapeHotelOpinions(fetch, hotelUrls[i], fuel);
      if walk.Crashed? {
        return Crashed(walk.crash);
      }
      var entry := HotelResult(hotelUrls[i], walk.value.opinions);
      PrependPrepend(data, [entry], ScrapeAll(fetch, hotelUrls[i + 1..], fuel));
      data := data + [entry];
    }
    assert hotelUrls[|hotelUrls|..] == [] && data + [] == data;
    r := Ok(data);
  }

  method Crawl(fetch: string -> Option<Element>, fuel: nat) returns (r: Outcome<seq<HotelResult>>)
    ensures r == CrawlResult(fetch, fuel)
    ensures fetch(CatalogUrl).None? ==> r == Ok([])
    ensures fetch(CatalogUrl).Some? && HotelLinks(fetch(CatalogUrl).value).Ok? ==>
      var links := HotelLinks(fetch(CatalogUrl).value).value;
      && (r.Ok? <==> forall i :: 0 <= i < |links| ==> Scrape(fetch, links[i], fuel).Ok?)
      && (r.Ok? ==> |r.value| == |links|
                    && forall i :: 0 <= i < |links| ==>
                         r.value[i] == HotelResult(links[i], Scrape(fetch, links[i], fuel).value.opinions))
  {
    var soup := fetch(CatalogUrl);
    if soup.None? {
      return Ok([]);
    }
    var links := ParseHotelLinks(soup.value);
    if links.Crashed? {
      return Crashed(links.crash);
    }
    r := ScrapeHotels(fetch, links.value, fuel);
    ScrapeAllSpec(fetch, links.value, fuel);
  }
}
