/**
 * The link-discovery and poem-extraction pipeline of the scraper
 * (src/scrapers/scrapers.py). The network is an oracle from URL to
 * response and the HTML parser is replaced by the two views of a page the
 * scraper uses: its anchors and the paragraphs of its poem-text container.
 */
module Scrapers {
  import opened Wrappers
  import opened PyStrings

  /** The `href` attribute of an `<a>` element, `None` when it has none. */
  type Anchor = Option<string>

  /** A parsed page as the scraper sees it. */
  datatype Document = Document(
    anchors: seq<Anchor>,             // every `<a>` element, in document order
    poemText: Option<seq<string>>)    // texts of the `<p>` elements of the poem-text
                                      // container; None when the page has no such container

  /** What `get_request` makes of a GET: the parsed page, or the non-OK signal. */
  datatype Response = Ok(doc: Document) | NotOk

  /** An exception that escapes `scrape_author` and ends the author's run. */
  datatype Abort =
    | PoemFetchFailed(link: string)   // `get_request` raised on a poem link
    | TitleIndexError(link: string)   // `link.split('/')[-2]` was out of range; only a `site`
                                      // that answers a URL without '/' can lead here

  datatype Poem = Poem(author: string, sourceLink: string, title: string, text: string)

  const SiteRoot: string := "https://virshi.com.ua"

  /** Page numbers run over `range(1, 100)`. */
  const MaxPages: nat := 99

  // ---------------------------------------------------------------------------
  // find_author_links

  /** `link.get('href', '')` */
  function Href(a: Anchor): (h: string)
    ensures a.Some? ==> h == a.value
    ensures a.None? ==> h == ""
  {
    a.GetOr("")
  }

  /** The hrefs, in document order and with repeats, that contain the author slug. */
  function FindAuthorLinks(author: string, anchors: seq<Anchor>): (links: seq<string>)
    ensures |links| <= |anchors|
    ensures forall i :: 0 <= i < |links| ==> Contains(links[i], author)
    decreases |anchors|
  {
    if anchors == [] then []
    else
      var h := Href(anchors[0]);
      (if Contains(h, author) then [h] else []) + FindAuthorLinks(author, anchors[1..])
  }

  /** Matching distributes over the concatenation of two runs of anchors. */
  lemma {:induction false} FindAuthorLinksAppend(author: string, xs: seq<Anchor>, ys: seq<Anchor>)
    ensures FindAuthorLinks(author, xs + ys) == FindAuthorLinks(author, xs) + FindAuthorLinks(author, ys)
    decreases |xs|
  {
    if xs == [] {
      assert xs + ys == ys;
    } else {
      assert (xs + ys)[0] == xs[0] && (xs + ys)[1..] == xs[1..] + ys;
      FindAuthorLinksAppend(author, xs[1..], ys);
    }
  }

  /** A string is kept exactly when some anchor has it as href and it contains the slug. */
  lemma {:induction false} FindAuthorLinksMembers(author: string, anchors: seq<Anchor>, l: string)
    ensures l in FindAuthorLinks(author, anchors) <==>
      Contains(l, author) && exists i :: 0 <= i < |anchors| && Href(anchors[i]) == l
    decreases |anchors|
  {
    if anchors != [] {
      FindAuthorLinksMembers(author, anchors[1..], l);
      if exists i :: 0 <= i < |anchors| && Href(anchors[i]) == l {
        var i :| 0 <= i < |anchors| && Href(anchors[i]) == l;
        if i > 0 {
          assert Href(anchors[1..][i - 1]) == l;
        }
      }
      forall i | 0 <= i < |anchors| - 1 && Href(anchors[1..][i]) == l
        ensures Href(anchors[i + 1]) == l
      {
      }
    }
  }

  /** An anchor without href counts as `''`: it is kept only for the empty slug. */
  lemma MissingHref(author: string)
    ensures FindAuthorLinks(author, [None]) == if author == "" then [""] else []
  {
    ContainsEmpty("", author);
  }

  /** When every href contains the slug, nothing is dropped and the order is kept. */
  lemma {:induction false} FindAuthorLinksKeepsAll(author: string, anchors: seq<Anchor>)
    requires forall i :: 0 <= i < |anchors| ==> Contains(Href(anchors[i]), author)
    ensures |FindAuthorLinks(author, anchors)| == |anchors|
    ensures forall i :: 0 <= i < |anchors| ==> FindAuthorLinks(author, anchors)[i] == Href(anchors[i])
    decreases |anchors|
  {
    if anchors != [] {
      FindAuthorLinksKeepsAll(author, anchors[1..]);
      assert Contains(Href(anchors[0]), author);
    }
  }

  // ---------------------------------------------------------------------------
  // get_author_links

  /** The f-string `f'page/{p}/'`. */
  function PageSegment(p: nat): (seg: string)
    ensures |seg| >= 7
  {
    "page/" + Decimal(p) + "/"
  }

  /**
   * The URL fetched for page `p` of the loop: `url += f'page/{p}/'` runs on
   * every page after the first and never resets `url`, so the segments pile up.
   */
  function PageUrl(base: string, p: nat): (url: string)
    ensures StartsWith(url, base)
    ensures |url| >= |base| + 7 * (p - 1)
    decreases p
  {
    if p <= 1 then base else PageUrl(base, p - 1) + PageSegment(p)
  }

  /**
   * The URL of a later page extends the URL of every earlier page, by at
   * least seven characters per page in between.
   */
  lemma {:induction false} PageUrlExtends(base: string, q: nat, p: nat)
    requires 1 <= q <= p
    ensures StartsWith(PageUrl(base, p), PageUrl(base, q))
    ensures |PageUrl(base, p)| >= |PageUrl(base, q)| + 7 * (p - q)
    decreases p
  {
    if q < p {
      PageUrlExtends(base, q, p - 1);
      var prev, first := PageUrl(base, p - 1), PageUrl(base, q);
      var next := prev + PageSegment(p);
      assert PageUrl(base, p) == next;
      assert next[..|prev|] == prev;
      assert next[..|first|] == prev[..|first|];
    }
  }

  /**
   * Page 2 is fetched at the intended `base + 'page/2/'`; every page from
   * the third on is fetched at a nested URL, never at `base + f'page/{p}/'`.
   */
  lemma PageUrlNested(base: string, p: nat)
    requires 2 <= p
    ensures PageUrl(base, p) == base + PageSegment(p) <==> p == 2
  {
    if p > 2 {
      PageUrlExtends(base, 1, p - 1);
    }
  }

  /** The third page is fetched at `base + 'page/2/page/3/'`. */
  lemma ThirdPageUrl(base: string)
    ensures PageUrl(base, 3) == base + "page/2/page/3/"
  {
    assert Decimal(2) == "2" && Decimal(3) == "3";
    assert PageUrl(base, 2) == base + "page/2/";
    assert PageUrl(base, 3) == (base + "page/2/") + "page/3/";
  }

  /**
   * The pagination loop issues `n` index requests, for pages 1 to n at
   * `PageUrl(base, 1)` to `PageUrl(base, n)`: n is between 1 and 99, every
   * page before page n is answered OK, and page n is answered not-OK unless
   * it is the 99th. So no request follows the first non-OK answer.
   */
  ghost predicate StopsAfter(site: string -> Response, base: string, n: nat) {
    && 1 <= n <= MaxPages
    && (forall p :: 1 <= p < n ==> site(PageUrl(base, p)).Ok?)
    && (n < MaxPages ==> site(PageUrl(base, n)).NotOk?)
  }

  /**
   * The number of index requests made from page `p` on: one for page `p`,
   * and more only when page `p` was OK and is not the 99th.
   */
  ghost function RequestsFrom(site: string -> Response, base: string, p: nat): (n: nat)
    requires 1 <= p <= MaxPages
    ensures 1 <= n <= MaxPages - p + 1
    decreases MaxPages - p
  {
    if p == MaxPages || site(PageUrl(base, p)).NotOk? then 1
    else 1 + RequestsFrom(site, base, p + 1)
  }

  /**
   * The site determines the number of requests: it is the first page
   * number answered not-OK, or 99 when there is none.
   */
  lemma RequestCount(site: string -> Response, base: string, n: nat)
    requires StopsAfter(site, base, n)
    ensures n == RequestsFrom(site, base, 1)
  {
    var p := n;
    while p > 1
      invariant 1 <= p <= n
      invariant RequestsFrom(site, base, p) == n - p + 1
    {
      p := p - 1;
    }
  }

  /** The matched hrefs of index pages 1 to n that were answered OK, concatenated in page order. */
  function PageLinks(author: string, site: string -> Response, base: string, n: nat): (links: seq<string>)
    ensures forall i :: 0 <= i < |links| ==> Contains(links[i], author)
    decreases n
  {
    if n == 0 then []
    else
      PageLinks(author, site, base, n - 1) +
      match site(PageUrl(base, n))
      case Ok(doc) => FindAuthorLinks(author, doc.anchors)
      case NotOk => []
  }

  /** An OK page adds its matched hrefs after those of the pages before it. */
  lemma PageLinksNext(author: string, site: string -> Response, base: string, n: nat, url: string)
    requires 1 <= n && url == PageUrl(base, n) && site(url).Ok?
    ensures PageLinks(author, site, base, n) ==
      PageLinks(author, site, base, n - 1) + FindAuthorLinks(author, site(url).doc.anchors)
  {
  }

  /**
   * `get_author_links(url, author_name)`: walks the index pages until one is
   * not OK or 99 have been fetched, collecting the hrefs that contain the
   * slug. `fetches` counts the GET requests it issues.
   */
  method GetAuthorLinks(base: string, author: string, site: string -> Response)
    returns (links: seq<string>, ghost fetches: nat)
    ensures StopsAfter(site, base, fetches)
    ensures links == PageLinks(author, site, base, fetches)
    ensures forall i :: 0 <= i < |links| ==> Contains(links[i], author)
  {
    links, fetches := [], 0;
    var url := base;
    for pageNum := 1 to 100
      invariant fetches == pageNum - 1
      invariant url == PageUrl(base, pageNum - 1)
      invariant forall p :: 1 <= p < pageNum ==> site(PageUrl(base, p)).Ok?
      invariant links == PageLinks(author, site, base, pageNum - 1)
    {
      if pageNum > 1 {
        url := url + PageSegment(pageNum);
      }
      assert url == PageUrl(base, pageNum);
      fetches := pageNum;
      var response := site(url);
      if response.NotOk? {
        break;
      }
      PageLinksNext(author, site, base, pageNum, url);
      links := links + FindAuthorLinks(author, response.doc.anchors);
    }
  }

  /**
   * An index page with three anchors, two of them for `poet-x`, followed by
   * a page that is not OK: the two matching hrefs come back, after exactly
   * two requests.
   */
  method TwoPageScenario() returns (links: seq<string>, ghost fetches: nat)
    ensures links == ["poet-x/first/", "poet-x/second/"]
    ensures fetches == 2
  {
    var base := "https://virshi.com.ua/poet-x/";
    var page := ScenarioPage();
    var site := (u: string) => if u == base then Response.Ok(page) else NotOk;
    PageUrlExtends(base, 1, 2);
    assert site(PageUrl(base, 1)) == Response.Ok(page);
    assert site(PageUrl(base, 2)).NotOk?;
    links, fetches := GetAuthorLinks(base, "poet-x", site);
    RequestCount(site, base, fetches);
    assert PageLinks("poet-x", site, base, 1) == FindAuthorLinks("poet-x", page.anchors);
  }

  function ScenarioPage(): (page: Document)
    ensures FindAuthorLinks("poet-x", page.anchors) == ["poet-x/first/", "poet-x/second/"]
  {
    assert StartsWith("poet-x/first/", "poet-x") && StartsWith("poet-x/second/", "poet-x");
    ContainsOnlyShorter("misc/", "poet-x");
    Document([Some("poet-x/first/"), Some("misc/"), Some("poet-x/second/")], None)
  }

  // ---------------------------------------------------------------------------
  // scrape_author

  /** `f'{BASE_URL}/{author_name}/'`: the site root, a '/', exactly the slug, and a closing '/'. */
  function AuthorBaseUrl(author: string): (url: string)
    ensures StartsWith(url, SiteRoot + "/")
    ensures |url| == |SiteRoot| + |author| + 2
    ensures url[|SiteRoot| + 1..|url| - 1] == author
    ensures url[|url| - 1] == '/'
  {
    SiteRoot + "/" + author + "/"
  }

  /**
   * The skip test of the extraction loop. Its second disjunct adds nothing:
   * a link is skipped exactly when it starts with the base URL.
   */
  predicate SkipLink(base: string, link: string): (skip: bool)
    ensures skip <==> StartsWith(link, base)
  {
    if StartsWith(link, base + "page/") then StartsWithLonger(link, base, "page/"); true
    else StartsWith(link, base)
  }

  /**
   * `poem_link.split('/')[-2]`: the piece before the last one. It raises
   * IndexError (None here) exactly when the link holds no '/'.
   */
  function Title(link: string): (title: Option<string>)
    ensures title.None? <==> '/' !in link
    ensures title.Some? ==> '/' !in title.value
  {
    var parts := Split(link, '/');
    if |parts| < 2 then None else Some(parts[|parts| - 2])
  }

  /**
   * For a link that ends in exactly one '/', the title is its last
   * non-empty segment: non-empty, free of '/', and preceded by '/' or
   * the start of the link.
   */
  lemma TitleOfTrailingSlash(t: string)
    requires t != [] && t[|t| - 1] != '/'
    ensures Title(t + "/").Some?
    ensures var title := Title(t + "/").value;
      && title != "" && '/' !in title
      && |title| <= |t| && t[|t| - |title|..] == title
      && (|title| == |t| || t[|t| - |title| - 1] == '/')
  {
    var parts := Split(t, '/');
    var last := parts[|parts| - 1];
    assert t + "/" == t + ['/'];
    SplitSnoc(t, '/', '/');
    assert Split(t + "/", '/') == parts + [""];
    assert Title(t + "/") == Some(last);
    SplitLastPiece(t, '/');
    SplitLastNonEmpty(t, '/');
  }

  /**
   * Without a trailing '/', the title is the segment before the last one:
   * the title of `dir/poem` is `dir`.
   */
  lemma TitleWithoutTrailingSlash(dir: string, poem: string)
    requires '/' !in dir && '/' !in poem
    ensures Title(dir + "/" + poem) == Some(dir)
  {
    SplitWithoutSeparator(dir, '/');
    SplitAppendPiece(dir, '/', poem);
  }

  /** With two trailing '/', the title is empty. */
  lemma TitleOfDoubleSlash(t: string)
    ensures Title(t + "//") == Some("")
  {
    assert t + "//" == t + ['/'] + ['/'];
    SplitSnoc(t, '/', '/');
    SplitSnoc(t + ['/'], '/', '/');
  }

  /** A link the loop visits, answered OK, with a poem-text container. */
  predicate Produces(base: string, link: string, site: string -> Response) {
    !SkipLink(base, link) && site(link).Ok? && site(link).doc.poemText.Some?
  }

  /** A link on which the loop raises: its fetch fails, or its title cannot be taken. */
  predicate Aborts(base: string, link: string, site: string -> Response) {
    !SkipLink(base, link) &&
    (site(link).NotOk? || (site(link).doc.poemText.Some? && '/' !in link))
  }

  /** `p` is the record of the author's poem at `p.sourceLink`. */
  ghost predicate Describes(author: string, site: string -> Response, p: Poem) {
    && p.author == author
    && site(p.sourceLink).Ok?
    && site(p.sourceLink).doc.poemText.Some?
    && Title(p.sourceLink) == Some(p.title)
    && p.text == Join(site(p.sourceLink).doc.poemText.value, "\n")
  }

  /** What one pass of the extraction loop does with one link. */
  function LinkOutcome(base: string, author: string, link: string, site: string -> Response)
    : (r: Result<Option<Poem>, Abort>)
    ensures r.Failure? <==> Aborts(base, link, site)
    ensures r.Failure? ==> r.error == if site(link).NotOk? then PoemFetchFailed(link) else TitleIndexError(link)
    ensures r.Success? ==> (r.value.Some? <==> Produces(base, link, site))
    ensures r.Success? && r.value.Some? ==> r.value.value.sourceLink == link && Describes(author, site, r.value.value)
  {
    if SkipLink(base, link) then Success(None)
    else match site(link)
      case NotOk => Failure(PoemFetchFailed(link))
      case Ok(doc) =>
        match doc.poemText
        case None => Success(None)
        case Some(paragraphs) =>
          match Title(link)
          case None => Failure(TitleIndexError(link))
          case Some(title) => Success(Some(Poem(author, link, title, Join(paragraphs, "\n"))))
  }

  /** The outcome of the extraction loop over `links`: the records, or the first exception. */
  function PoemsFrom(base: string, author: string, links: seq<string>, site: string -> Response)
    : (r: Result<seq<Poem>, Abort>)
    ensures r.Success? ==> |r.value| <= |links|
    ensures r.Success? ==> forall k :: 0 <= k < |r.value| ==> r.value[k].author == author
    ensures r.Failure? ==> r.error.link in links
    decreases |links|
  {
    if links == [] then Success([])
    else
      match PoemsFrom(base, author, links[..|links| - 1], site)
      case Failure(e) => Failure(e)
      case Success(poems) =>
        match LinkOutcome(base, author, links[|links| - 1], site)
        case Failure(e) => Failure(e)
        case Success(None) => Success(poems)
        case Success(Some(p)) => Success(poems + [p])
  }

  /** The links that yield a record, in link order: visited, OK, with a poem-text container. */
  ghost function Selected(base: string, links: seq<string>, site: string -> Response): (sel: seq<string>)
    ensures |sel| <= |links|
    ensures forall k :: 0 <= k < |sel| ==> sel[k] in links && Produces(base, sel[k], site)
    ensures forall l :: l in links && Produces(base, l, site) ==> l in sel
    decreases |links|
  {
    if links == [] then []
    else
      var last := links[|links| - 1];
      Selected(base, links[..|links| - 1], site) + (if Produces(base, last, site) then [last] else [])
  }

  /**
   * When the loop finishes, its records correspond one to one, in order, to
   * the selected links, and each is the author's record of its link.
   */
  lemma {:induction false} PoemsFromRecords(base: string, author: string, links: seq<string>,
                                            site: string -> Response, poems: seq<Poem>)
    requires PoemsFrom(base, author, links, site) == Success(poems)
    ensures |poems| == |Selected(base, links, site)|
    ensures forall k :: 0 <= k < |poems| ==>
      poems[k].sourceLink == Selected(base, links, site)[k] && Describes(author, site, poems[k])
    decreases |links|
  {
    if links != [] {
      var init, last := links[..|links| - 1], links[|links| - 1];
      match PoemsFrom(base, author, init, site)
      case Success(before) =>
        PoemsFromRecords(base, author, init, site, before);
    }
  }

  /** Once the loop has raised, later links change nothing. */
  lemma {:induction false} PoemsFromFailureSticks(base: string, author: string, xs: seq<string>,
                                                  ys: seq<string>, site: string -> Response)
    requires PoemsFrom(base, author, xs, site).Failure?
    ensures PoemsFrom(base, author, xs + ys, site) == PoemsFrom(base, author, xs, site)
    decreases |ys|
  {
    if ys == [] {
      assert xs + ys == xs;
    } else {
      PoemsFromFailureSticks(base, author, xs, ys[..|ys| - 1], site);
      assert (xs + ys)[..|xs + ys| - 1] == xs + ys[..|ys| - 1];
    }
  }

  /**
   * The loop raises exactly when some link aborts, and then with the
   * exception of the first such link.
   */
  lemma {:induction false} PoemsFromAborts(base: string, author: string, links: seq<string>,
                                           site: string -> Response)
    ensures PoemsFrom(base, author, links, site).Failure? <==>
      exists i :: 0 <= i < |links| && Aborts(base, links[i], site)
    ensures PoemsFrom(base, author, links, site).Failure? ==>
      exists i :: 0 <= i < |links| && Aborts(base, links[i], site)
        && (forall j :: 0 <= j < i ==> !Aborts(base, links[j], site))
        && PoemsFrom(base, author, links, site).error ==
           if site(links[i]).NotOk? then PoemFetchFailed(links[i]) else TitleIndexError(links[i])
    decreases |links|
  {
    if links != [] {
      var n := |links| - 1;
      var init := links[..n];
      PoemsFromAborts(base, author, init, site);
      assert forall i :: 0 <= i < n ==> links[i] == init[i];
      if PoemsFrom(base, author, init, site).Failure? {
        var i :| 0 <= i < n && Aborts(base, init[i], site)
          && (forall j :: 0 <= j < i ==> !Aborts(base, init[j], site))
          && PoemsFrom(base, author, init, site).error ==
             if site(init[i]).NotOk? then PoemFetchFailed(init[i]) else TitleIndexError(init[i]);
        assert Aborts(base, links[i], site);
      } else if Aborts(base, links[n], site) {
        assert forall j :: 0 <= j < n ==> !Aborts(base, links[j], site);
      }
    }
  }

  /**
   * The loop of `scrape_author` over the collected links: skips index-page
   * links, fetches every other link (a failed fetch is not caught), passes
   * over pages without a poem-text container, and appends one record per
   * remaining link.
   */
  method ExtractPoems(base: string, author: string, links: seq<string>, site: string -> Response)
    returns (result: Result<seq<Poem>, Abort>)
    ensures result == PoemsFrom(base, author, links, site)
  {
    var allTexts: seq<Poem> := [];
    for i := 0 to |links|
      invariant PoemsFrom(base, author, links[..i], site) == Success(allTexts)
    {
      var poemLink := links[i];
      assert links[..i + 1][..i] == links[..i] && links[..i + 1][i] == poemLink;
      if SkipLink(base, poemLink) {
        continue;
      }
      var response := site(poemLink);
      if response.NotOk? {
        result := Failure(PoemFetchFailed(poemLink));
        PoemsFromFailureSticks(base, author, links[..i + 1], links[i + 1..], site);
        assert links[..i + 1] + links[i + 1..] == links;
        return;
      }
      var paragraphs := response.doc.poemText;
      if paragraphs.None? {
        continue;
      }
      var title := Title(poemLink);
      if title.None? {
        result := Failure(TitleIndexError(poemLink));
        PoemsFromFailureSticks(base, author, links[..i + 1], links[i + 1..], site);
        assert links[..i + 1] + links[i + 1..] == links;
        return;
      }
      var text := Join(paragraphs.value, "\n");
      allTexts := allTexts + [Poem(author, poemLink, title.value, text)];
    }
    assert links[..|links|] == links;
    result := Success(allTexts);
  }

  /** A record's text splits back into its paragraphs when none of them holds a newline. */
  lemma RecordTextSplits(author: string, site: string -> Response, p: Poem)
    requires Describes(author, site, p)
    requires var paragraphs := site(p.sourceLink).doc.poemText.value;
      |paragraphs| >= 1 && forall i :: 0 <= i < |paragraphs| ==> '\n' !in paragraphs[i]
    ensures Split(p.text, '\n') == site(p.sourceLink).doc.poemText.value
  {
    SplitJoin(site(p.sourceLink).doc.poemText.value, '\n');
  }

  /**
   * `scrape_author(author_name)`: collects the author's links from the index
   * pages, then extracts one record per poem page. Every record carries the
   * author slug, a link containing that slug that is not under the author's
   * index URL, the title of that link and the text of its poem.
   */
  method ScrapeAuthor(author: string, site: string -> Response)
    returns (result: Result<seq<Poem>, Abort>, ghost indexFetches: nat)
    ensures StopsAfter(site, AuthorBaseUrl(author), indexFetches)
    ensures result == PoemsFrom(AuthorBaseUrl(author), author, PageLinks(author, site, AuthorBaseUrl(author), indexFetches), site)
    ensures result == PoemsFrom(AuthorBaseUrl(author), author,
      PageLinks(author, site, AuthorBaseUrl(author), RequestsFrom(site, AuthorBaseUrl(author), 1)), site)
    ensures result.Success? ==> forall k :: 0 <= k < |result.value| ==>
      && Describes(author, site, result.value[k])
      && Contains(result.value[k].sourceLink, author)
      && !StartsWith(result.value[k].sourceLink, AuthorBaseUrl(author))
  {
    var baseUrl := AuthorBaseUrl(author);
    var allLinks;
    allLinks, indexFetches := GetAuthorLinks(baseUrl, author, site);
    RequestCount(site, baseUrl, indexFetches);
    result := ExtractPoems(baseUrl, author, allLinks, site);
    if result.Success? {
      PoemsFromRecords(baseUrl, author, allLinks, site, result.value);
      forall k | 0 <= k < |result.value|
        ensures Contains(result.value[k].sourceLink, author)
      {
        var sel := Selected(baseUrl, allLinks, site);
        assert sel[k] in allLinks;
      }
    }
  }

  // ---------------------------------------------------------------------------
  // write_poems_file

  /** The records of several author files, file after file: as many as the files hold together. */
  function Flatten(files: seq<seq<Poem>>): (poems: seq<Poem>)
    ensures |poems| == RecordCount(files)
    decreases |files|
  {
    if files == [] then [] else Flatten(files[..|files| - 1]) + files[|files| - 1]
  }

  /** Total number of records over the files. */
  function RecordCount(files: seq<seq<Poem>>): nat
    decreases |files|
  {
    if files == [] then 0 else RecordCount(files[..|files| - 1]) + |files[|files| - 1]|
  }

  /** The corpus holds every record of every file, and nothing else. */
  lemma {:induction false} FlattenMembers(files: seq<seq<Poem>>, p: Poem)
    ensures p in Flatten(files) <==> exists i :: 0 <= i < |files| && p in files[i]
    decreases |files|
  {
    if files != [] {
      var init := files[..|files| - 1];
      FlattenMembers(init, p);
      assert forall i :: 0 <= i < |init| ==> init[i] == files[i];
      if p in Flatten(files) && p !in files[|files| - 1] {
        var i :| 0 <= i < |init| && p in init[i];
        assert p in files[i];
      }
    }
  }

  /**
   * The accumulation loop of `write_poems_file`: `poems += records` for each
   * author file in listing order.
   */
  method CombineAuthorFiles(files: seq<seq<Poem>>) returns (poems: seq<Poem>)
    ensures poems == Flatten(files)
  {
    poems := [];
    for i := 0 to |files|
      invariant poems == Flatten(files[..i])
    {
      assert files[..i + 1][..i] == files[..i];
      poems := poems + files[i];
    }
    assert files[..|files|] == files;
  }

  /** Two author files of two and three records give a corpus of five records. */
  lemma FiveRecordCorpus(a: seq<Poem>, b: seq<Poem>)
    requires |a| == 2 && |b| == 3
    ensures |Flatten([a, b])| == 5
  {
    assert [a, b][..1] == [a] && [a][..0] == [];
    assert Flatten([a]) == a;
    assert Flatten([a, b]) == a + b;
  }
}
