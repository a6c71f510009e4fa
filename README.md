# Ukrainian poetry scraper — a Dafny model

This project models the scraping core of the `ukrainian-poetry` repository,
`src/scrapers/scrapers.py`. For each author slug the scraper does four things:

- It walks the author's index pages on `https://virshi.com.ua`, collecting every
  `<a href>` that contains the slug (`find_author_links`, `get_author_links`).
- It visits each collected link that is not under the author's index URL.
- For each visited page it builds a poem record `{author, source_link, title, text}`
  (`scrape_author`).
- It later concatenates the per-author record files into one corpus
  (`write_poems_file`).

Files:

- `wrappers.dfy`: `Option` and `Result`.
- `pystrings.dfy` (module `PyStrings`): the Python string operations the scraper
  relies on, with their laws proved. These are substring `in`, `startswith`,
  `str.split` on one character, `str.join`, and decimal formatting of an `int`.
  The laws include `'sep'.join(s.split(sep)) == s` and its converse for
  separator-free parts.
- `scrapers.dfy` (module `Scrapers`): the pipeline.
  - The network is a function `site: string -> Response` from URL to answer.
    An answer is an OK page or the not-OK signal that `get_request` raises as
    `StopIteration`.
  - A parsed page is reduced to the two views the scraper reads: the `href` of
    each anchor (absent hrefs read as `''`), and the paragraph texts of the
    `poem-text` container.
  - The loops of `get_author_links`, `scrape_author` and `write_poems_file` are
    methods. Each is proved equal to a specification function (`PageLinks`,
    `PoemsFrom`, `Flatten`), and the properties are proved as lemmas about those
    functions.

What the model establishes about the code as written:

- **Pagination.** The page URL is extended cumulatively and never rebuilt from
  the base. Page 3 is therefore fetched at `base + 'page/2/page/3/'`, and from
  the third page on no page is fetched at `base + f'page/{p}/'`.
  - The loop stops at the first non-OK page or after 99 requests.
  - The number of requests is determined by the site alone.
- **Extraction.**
  - A link is skipped exactly when it starts with the author's base URL; the
    second test on line 49 is subsumed by the first.
  - A record is produced for each visited link whose page is OK and has a
    poem-text container, in link order.
  - Each record's title is `link.split('/')[-2]`. For a link ending in a single
    `/`, that is its last non-empty segment. For other links it is not:
    `dir/poem` gives `dir`, and a link ending in `//` gives `''`.
  - A non-OK answer for a poem link is not caught: it ends the author's scrape
    with the exception of the first such link. In the model a link without any
    `/` whose page is OK and has a container also ends it (IndexError on
    `[-2]`). With the real HTTP client that case cannot arise, because the
    fetch on line 51 already raises on a URL without `/`.
- **Corpus.** The combined corpus is the per-author record lists concatenated in
  listing order: it holds every record of every listed author file and nothing
  else.

Three behaviours of the code that are easy to misread:

- The code skips every link under the base URL, not only the base URL and its
  `page/` links.
- A failed fetch of a poem page aborts the author's scrape; the link is not
  passed over.
- The title is the second-to-last `/`-piece, not always the last non-empty
  segment.

## Model

| member | source | states |
|---|---|---|
| Scrapers.Href | src/scrapers/scrapers.py:14 | `link.get('href', '')` is the href when the anchor has one and `''` otherwise. |
| Scrapers.FindAuthorLinks | src/scrapers/scrapers.py:13-14 | The kept hrefs are no more than the anchors, and every one of them contains the author slug as a substring. |
| Scrapers.FindAuthorLinksMembers | src/scrapers/scrapers.py:13-14 | A string is in the result iff it contains the slug and is the href of some anchor, with a missing href read as `''`. |
| Scrapers.FindAuthorLinksAppend | src/scrapers/scrapers.py:13-14 | Matching the anchors of two runs in sequence gives the two results concatenated, so document order is preserved. |
| Scrapers.FindAuthorLinksKeepsAll | src/scrapers/scrapers.py:13-14 | When every href contains the slug, all are kept in order with repeats: the result is the hrefs themselves. |
| Scrapers.MissingHref | src/scrapers/scrapers.py:14 | An anchor without href contributes `''`, which is kept only when the slug is empty. |
| Scrapers.PageSegment | src/scrapers/scrapers.py:33 | The appended segment `page/{p}/` is at least seven characters long. |
| Scrapers.PageUrl | src/scrapers/scrapers.py:31-33 | The URL of page p, built by `url +=` on every page after the first, starts with the base URL and is at least 7 * (p - 1) characters longer. |
| Scrapers.PageUrlExtends | src/scrapers/scrapers.py:31-33 | The URL of a later page has the URL of each earlier page as a prefix and is at least seven characters longer per page in between. |
| Scrapers.PageUrlNested | src/scrapers/scrapers.py:31-33 | For p >= 2, page p is fetched at `base + f'page/{p}/'` iff p is 2. |
| Scrapers.ThirdPageUrl | src/scrapers/scrapers.py:31-33 | The third request goes to `base + 'page/2/page/3/'`. |
| Scrapers.RequestsFrom | src/scrapers/scrapers.py:20-21 | From page p on, the loop makes between 1 and 100 - p requests. |
| Scrapers.RequestCount | src/scrapers/scrapers.py:20-21 | Any request count that satisfies the stopping rule is the one the site determines: the first non-OK page, or 99. |
| Scrapers.PageLinks | src/scrapers/scrapers.py:39 | Every link gathered from the OK index pages contains the author slug. |
| Scrapers.GetAuthorLinks | src/scrapers/scrapers.py:29-41 | The loop makes n requests, 1 <= n <= 99. Pages before n are OK, and page n is not OK unless n is 99. The result is the matched hrefs of the OK pages 1..n, concatenated in page order, so every link contains the slug. |
| Scrapers.TwoPageScenario | src/scrapers/scrapers.py:29-41 | One OK index page with two of three hrefs matching, followed by a non-OK page, yields exactly those two hrefs after two requests. |
| Scrapers.AuthorBaseUrl | src/scrapers/scrapers.py:45 | The base URL is the site root, a `/`, exactly the slug and a closing `/`. |
| Scrapers.SkipLink | src/scrapers/scrapers.py:49-50 | A link is skipped iff it starts with the base URL; the `page/` test adds nothing. |
| Scrapers.Title | src/scrapers/scrapers.py:65 | `link.split('/')[-2]` fails iff the link holds no `/`; when it succeeds, the title holds no `/`. |
| Scrapers.TitleOfTrailingSlash | src/scrapers/scrapers.py:65 | For a link ending in exactly one `/`, the title is non-empty and `/`-free, and is the segment just before that `/`. |
| Scrapers.TitleWithoutTrailingSlash | src/scrapers/scrapers.py:65 | The title of `dir/poem` is `dir`, not the last segment. |
| Scrapers.TitleOfDoubleSlash | src/scrapers/scrapers.py:65 | The title of a link ending in `//` is the empty string. |
| Scrapers.LinkOutcome | src/scrapers/scrapers.py:48-68 | One pass over a link raises iff the link is visited and either its fetch is not OK or its page has a container but the link has no `/`; the exception is the one for that case. Otherwise the pass produces a record iff the link is visited, OK and has a container, and that record describes the link. |
| Scrapers.PoemsFrom | src/scrapers/scrapers.py:47-70 | The outcome of the loop: on success at most one record per link, each carrying the slug; on an exception, the link it was raised on is one of the links. |
| Scrapers.Selected | src/scrapers/scrapers.py:48-59 | The links that yield a record are links of the input, each visited, OK and with a poem-text container; conversely every such link of the input is selected. |
| Scrapers.PoemsFromRecords | src/scrapers/scrapers.py:47-70 | When the loop completes, its records match the selected links one to one and in order. Each record carries the slug, its link, that link's title and the newline-joined paragraphs of its page. |
| Scrapers.PoemsFromAborts | src/scrapers/scrapers.py:48-65 | The loop raises iff some link aborts, and then with the exception of the first aborting link. |
| Scrapers.PoemsFromFailureSticks | src/scrapers/scrapers.py:51 | Once the loop has raised, further links do not change the outcome. |
| Scrapers.ExtractPoems | src/scrapers/scrapers.py:47-70 | The extraction loop, with its `continue`s and uncaught exceptions, computes exactly `PoemsFrom` of its links. |
| Scrapers.RecordTextSplits | src/scrapers/scrapers.py:60-61 | The text of a record splits back on `\n` into its page's paragraphs when there is at least one paragraph and none holds a newline. A container without `<p>` gives `''`, which splits to `['']`. |
| Scrapers.ScrapeAuthor | src/scrapers/scrapers.py:44-70 | The index loop stops by the stopping rule. The result is the extraction over the gathered links, with the number of index requests the one the site determines, so the result is determined by the slug and the site. On success, every record describes its link, and that link contains the slug and is not under the author's base URL. |
| Scrapers.Flatten | src/scrapers/scrapers.py:88-90 | The corpus has as many records as all author files together. |
| Scrapers.FlattenMembers | src/scrapers/scrapers.py:88-90 | A record is in the corpus iff it is in some author file. |
| Scrapers.CombineAuthorFiles | src/scrapers/scrapers.py:88-90 | The accumulation loop yields the author files' records concatenated in listing order. |
| Scrapers.FiveRecordCorpus | src/scrapers/scrapers.py:88-90 | Author files of two and three records give a corpus of five records. |
| PyStrings.StartsWith | src/scrapers/scrapers.py:49 | `s.startswith(p)` holds iff p is no longer than s and agrees with it character by character. |
| PyStrings.Contains | src/scrapers/scrapers.py:14 | `sub in s` holds whenever s starts with sub, and only when sub is no longer than s. |
| PyStrings.ContainsIffOccurs | src/scrapers/scrapers.py:14 | Python's substring test holds iff the substring occurs at some index. |
| PyStrings.ContainsOnlyShorter | src/scrapers/scrapers.py:14 | A string never contains a longer one. |
| PyStrings.ContainsEmpty | src/scrapers/scrapers.py:14 | Every string contains `''`, and `''` contains only `''`. |
| PyStrings.StartsWithLonger | src/scrapers/scrapers.py:49 | Starting with `base + x` implies starting with `base`. |
| PyStrings.Split | src/scrapers/scrapers.py:65 | `split` gives at least one piece, gives exactly one iff the separator is absent, and no piece holds the separator. |
| PyStrings.Join | src/scrapers/scrapers.py:61 | `sep.join(parts)` of one or more parts begins with the first part and ends with the last. |
| PyStrings.JoinSplit | src/scrapers/scrapers.py:65 | Joining the pieces of `s.split(c)` with `c` gives back `s`. |
| PyStrings.SplitJoin | src/scrapers/scrapers.py:61 | Splitting the join of a non-empty list of separator-free pieces, empty pieces included, gives back those pieces. |
| PyStrings.SplitAppendPiece | src/scrapers/scrapers.py:65 | Splitting `x + c + y`, where y is free of c, gives the pieces of `x` followed by `y`. |
| PyStrings.SplitWithoutSeparator | src/scrapers/scrapers.py:65 | A string without the separator splits into itself alone. |
| PyStrings.SplitLastPiece | src/scrapers/scrapers.py:65 | The last piece is a separator-free suffix, preceded by the separator or forming the whole string. |
| PyStrings.Decimal | src/scrapers/scrapers.py:33 | The decimal form of a page number is non-empty and made of digits. |
| PyStrings.DecimalValue | src/scrapers/scrapers.py:33 | The digits of `str(n)` denote n, with no leading zero for n >= 10. |

## Left out

- HTTP itself is a parameter, the `site` function. Left out: the User-Agent header, timeouts, redirects, and exceptions `requests` raises other than a non-OK status.
- HTML parsing with BeautifulSoup is left out. A page is given by its anchors' hrefs and the paragraph texts of its `poem-text` container.
- An empty poem page and a page without the container both skip the link. An empty page is skipped because it has no container: the `if not soup` test on line 53 does not fire on a parsed document. The model gives both cases as `poemText == None`. A parser failure would raise instead; that is not modelled.
- The diagnostic `print` calls are left out. They have no effect on the results.
- `get_soup` is not modelled separately; it is folded into `Response`.
- `save_author_file` is left out: directory creation and JSON writing are file I/O.
- `write_author_files` is left out; the model covers one author's scrape. The pool does not isolate a failed author cleanly. `Pool.starmap` runs each chunk of authors as `list(itertools.starmap(save_author_file, chunk))`. A `StopIteration` that escapes `scrape_author` (raised on line 21 by the fetch on line 51) is taken by `list()` as the end of that chunk. No error reaches `main`, and no file is written for that author, since line 76 is not reached. The later authors of the same chunk are skipped silently; with the default 13 authors and fewer than four workers, chunks hold several authors.
- `write_poems_file`: JSON decoding, gzip writing and `os.listdir` are left out. The order of the files is an input of `CombineAuthorFiles`. The model assumes every listed file is an author file. In the program the gzip corpus is written into the same directory (line 91), so a second run lists it and `json.load` on line 90 fails on it.
- `main` is left out: argument parsing, the default author list and timing.
- The `site` parameter is a function, so it answers the same URL the same way every time. The real site may not. Duplicate hrefs are kept (line 14) and each is fetched again (line 51). Statements that the site alone determines the requests and the records hold under this assumption.
- Scrapers.LinkOutcome: `TitleIndexError` arises only because `site` answers any string, including URLs that the real HTTP client rejects. `requests.get` raises on a URL without `/` (no scheme, `http:x`, `mailto:x`), so in the program such a link ends the author's scrape at line 51, never at line 65. A `site` that answers such a URL not-OK matches the program: the scrape ends at that link. A `site` that answers it OK leads the model to `TitleIndexError`, or to a skip when the page has no container.
- Scrapers.GetAuthorLinks: the requests are described by their ghost count `fetches` and the page URLs `PageUrl(base, 1..fetches)`, not by a log of request strings.
- Scrapers.ScrapeAuthor: the index requests are described the same way, by the ghost `indexFetches`; the poem requests are the visited links.
