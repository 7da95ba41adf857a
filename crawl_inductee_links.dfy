/**
 * The `crawl_inductee_links` management command: it fills in the link-card
 * preview (domain, title, description, image) of each inductee outbound link
 * whose `downloaded_datetime` is unset.
 *
 * The network, the HTML parser, Pillow and the headless browser are not
 * modelled; what they did for one link is given as a `Scenario` value. The
 * database table is a `LinkTable` object holding one row per link id; an
 * `OutboundLink` object is the ORM instance whose fields the command assigns
 * step by step and whose `Save` writes them to the table.
 */
module CrawlInducteeLinks {
  import opened Wrappers
  import opened Text
  import opened Imaging

  // ---------------------------------------------------------------------
  // get_domain_from_url: urlparse(url).netloc with every "www." removed
  // ---------------------------------------------------------------------

  datatype UrlError = InvalidIPv6Url

  predicate IsAsciiLetter(c: char) { 'a' <= c <= 'z' || 'A' <= c <= 'Z' }

  /** The characters `urlsplit` accepts in a scheme. */
  predicate IsSchemeChar(c: char) { IsAsciiLetter(c) || IsDigit(c) || c == '+' || c == '-' || c == '.' }

  /** `url.lstrip(...)` of the C0 control characters and space, as `urlsplit` does first. */
  function StripLeadingControls(url: string): (r: string)
    ensures |r| <= |url| && r == url[|url| - |r|..]
    ensures forall i :: 0 <= i < |url| - |r| ==> url[i] <= ' '
    ensures r == [] || r[0] > ' '
    decreases |url|
  {
    if url != [] && url[0] <= ' ' then StripLeadingControls(url[1..]) else url
  }

  /** `urlsplit` deletes every tab, carriage return and line feed. */
  function RemoveTabsAndNewlines(url: string): (r: string)
    ensures forall i :: 0 <= i < |r| ==> r[i] !in {'\t', '\r', '\n'}
    ensures |r| <= |url|
    ensures NoneIn(url, {'\t', '\r', '\n'}) ==> r == url
    ensures |url| == 1 ==> r == if url[0] in {'\t', '\r', '\n'} then [] else url
    decreases |url|
  {
    if url == [] then []
    else if url[0] in {'\t', '\r', '\n'} then RemoveTabsAndNewlines(url[1..])
    else [url[0]] + RemoveTabsAndNewlines(url[1..])
  }

  /**
   * The deletion works character by character: together with the
   * one-character case above, every other character is kept, in order.
   */
  lemma {:induction false} RemoveTabsAndNewlinesAppend(a: string, b: string)
    ensures RemoveTabsAndNewlines(a + b) == RemoveTabsAndNewlines(a) + RemoveTabsAndNewlines(b)
    decreases |a|
  {
    if a == [] {
      assert a + b == b;
    } else {
      assert (a + b)[0] == a[0];
      assert (a + b)[1..] == a[1..] + b;
      RemoveTabsAndNewlinesAppend(a[1..], b);
    }
  }

  /**
   * What follows the scheme: when the text before the first `:` is non-empty,
   * starts with an ASCII letter and holds only scheme characters, it is the
   * scheme and is cut off with the colon; otherwise nothing is cut.
   */
  function AfterScheme(url: string): string {
    if ':' in url then
      var scheme := FieldAt(url, {':'});
      if |scheme| > 0 && IsAsciiLetter(scheme[0]) && forall i :: 0 <= i < |scheme| ==> IsSchemeChar(scheme[i])
      then url[|scheme| + 1..]
      else url
    else url
  }

  /**
   * `urlparse(url).netloc`: after the scheme, a `//` opens the authority,
   * which runs to the first `/`, `?` or `#`. An authority with only one of
   * `[` and `]` raises ValueError.
   */
  function Netloc(url: string): Result<string, UrlError> {
    var rest := AfterScheme(RemoveTabsAndNewlines(StripLeadingControls(url)));
    if StartsWith(rest, "//") then
      var netloc := FieldAt(rest[2..], {'/', '?', '#'});
      if ('[' in netloc) != (']' in netloc) then Err(InvalidIPv6Url) else Ok(netloc)
    else
      Ok("")
  }

  /** `get_domain_from_url`: the netloc with `replace("www.", "")` applied. */
  function DomainFromUrl(url: string): (r: Result<string, UrlError>)
    ensures r.Ok? <==> Netloc(url).Ok?
    ensures r.Ok? ==> |r.value| <= |Netloc(url).value|
    ensures r.Ok? ==> (r.value == Netloc(url).value <==> !Contains(Netloc(url).value, "www."))
  {
    match Netloc(url)
    case Err(e) => Err(e)
    case Ok(netloc) =>
      RemoveAllUnchangedIff(netloc, "www.");
      Ok(RemoveAll(netloc, "www."))
  }

  /**
   * Every `www.` is removed, scanning left to right: the text before the
   * first occurrence is kept as it is and the scan resumes after it.
   */
  lemma DomainDropsFirstWww(url: string, a: string, b: string)
    requires Netloc(url) == Ok(a + "www." + b)
    requires forall k :: 0 <= k < |a| ==> !StartsWith((a + "www." + b)[k..], "www.")
    ensures DomainFromUrl(url) == Ok(a + RemoveAll(b, "www."))
  {
    RemoveAllScan(a, "www.", b);
  }

  /** A host `www.<h>` whose rest holds no other `www.` gives the domain `h`. */
  lemma DomainOfWwwHost(url: string, h: string)
    requires Netloc(url) == Ok("www." + h)
    requires !Contains(h, "www.")
    ensures DomainFromUrl(url) == Ok(h)
  {
    assert [] + "www." + h == "www." + h;
    DomainDropsFirstWww(url, [], h);
  }

  /** A well-formed scheme followed by `:` is cut off with its colon. */
  lemma AfterWellFormedScheme(scheme: string, tail: string)
    requires |scheme| > 0 && IsAsciiLetter(scheme[0])
    requires forall i :: 0 <= i < |scheme| ==> IsSchemeChar(scheme[i])
    ensures AfterScheme(scheme + [':'] + tail) == tail
  {
    var url := scheme + [':'] + tail;
    assert NoneIn(scheme, {':'}) by {
      forall i | 0 <= i < |scheme| ensures scheme[i] !in {':'} {
        assert IsSchemeChar(scheme[i]);
      }
    }
    FieldAtSplit(scheme, ':', tail, {':'});
    assert url[|scheme|] == ':';
    assert url[|scheme| + 1..] == tail;
  }

  /** The authority after `//` runs to the first `/`, `?` or `#`. */
  lemma AuthorityOf(host: string, rest: string)
    requires NoneIn(host, {'/', '?', '#'})
    requires rest == [] || rest[0] in {'/', '?', '#'}
    ensures FieldAt(host + rest, {'/', '?', '#'}) == host
  {
    if rest == [] {
      assert host + rest == host;
      FieldAtWhole(host, {'/', '?', '#'});
    } else {
      assert host + rest == host + [rest[0]] + rest[1..];
      FieldAtSplit(host, rest[0], rest[1..], {'/', '?', '#'});
    }
  }

  /**
   * The netloc of `scheme://host` followed by a path, query or fragment is
   * `host`, for a well-formed scheme and a host without `/`, `?`, `#` or
   * brackets, in a URL without tabs or line breaks.
   */
  lemma NetlocOfAbsoluteUrl(scheme: string, host: string, rest: string)
    requires |scheme| > 0 && IsAsciiLetter(scheme[0])
    requires forall i :: 0 <= i < |scheme| ==> IsSchemeChar(scheme[i])
    requires NoneIn(host, {'/', '?', '#', '[', ']'})
    requires rest == [] || rest[0] in {'/', '?', '#'}
    requires NoneIn(scheme + "://" + host + rest, {'\t', '\r', '\n'})
    ensures Netloc(scheme + "://" + host + rest) == Ok(host)
  {
    var tail := "//" + host + rest;
    var url := scheme + [':'] + tail;
    assert url == scheme + "://" + host + rest;
    assert url[0] == scheme[0];
    assert StripLeadingControls(url) == url;
    assert RemoveTabsAndNewlines(url) == url;
    AfterWellFormedScheme(scheme, tail);
    assert AfterScheme(RemoveTabsAndNewlines(StripLeadingControls(url))) == tail;
    AuthorityAfterSlashes(host, rest);
    assert FieldAt(tail[2..], {'/', '?', '#'}) == host;
  }

  lemma AuthorityAfterSlashes(host: string, rest: string)
    requires NoneIn(host, {'/', '?', '#', '[', ']'})
    requires rest == [] || rest[0] in {'/', '?', '#'}
    ensures var tail := "//" + host + rest;
            StartsWith(tail, "//") && FieldAt(tail[2..], {'/', '?', '#'}) == host
            && '[' !in host && ']' !in host
  {
    var tail := "//" + host + rest;
    assert tail[..2] == "//";
    assert tail[2..] == host + rest;
    assert NoneIn(host, {'/', '?', '#'});
    AuthorityOf(host, rest);
    assert NoneIn(host, {'[', ']'});
  }

  /** `urlparse` finds the host of `https://www.example.com/a/b`. */
  lemma NetlocExampleWithWww()
    ensures Netloc("https://www.example.com/a/b") == Ok("www.example.com")
  {
    assert "https://www.example.com/a/b" == "https" + "://" + "www.example.com" + "/a/b";
    assert forall i :: 0 <= i < |"https"| ==> IsSchemeChar("https"[i]);
    assert NoneIn("www.example.com", {'/', '?', '#', '[', ']'});
    assert NoneIn("https://www.example.com/a/b", {'\t', '\r', '\n'});
    NetlocOfAbsoluteUrl("https", "www.example.com", "/a/b");
  }

  /** Removing `www.` from the host `www.example.com`. */
  lemma WwwRemovedExample()
    ensures RemoveAll("www.example.com", "www.") == "example.com"
  {
    assert "www.example.com" == "www." + "example.com";
    assert StartsWith("www.example.com", "www.");
    NotContainsWithoutFirst("example.com", "www.");
  }

  /** For `https://www.example.com/a/b`, `www.` is dropped from the host. */
  lemma DomainExampleWithWww()
    ensures DomainFromUrl("https://www.example.com/a/b") == Ok("example.com")
  {
    NetlocExampleWithWww();
    WwwRemovedExample();
  }

  /** `urlparse` finds the host of `http://sub.example.org`. */
  lemma NetlocExampleWithoutWww()
    ensures Netloc("http://sub.example.org") == Ok("sub.example.org")
  {
    assert "http://sub.example.org" == "http" + "://" + "sub.example.org" + "";
    assert forall i :: 0 <= i < |"http"| ==> IsSchemeChar("http"[i]);
    assert NoneIn("sub.example.org", {'/', '?', '#', '[', ']'});
    assert NoneIn("http://sub.example.org", {'\t', '\r', '\n'});
    NetlocOfAbsoluteUrl("http", "sub.example.org", "");
  }

  /** The host `sub.example.org` has no `www.` to remove. */
  lemma WwwAbsentExample()
    ensures RemoveAll("sub.example.org", "www.") == "sub.example.org"
  {
    NotContainsWithoutFirst("sub.example.org", "www.");
  }

  /** For `http://sub.example.org`, a host without `www.` is kept whole. */
  lemma DomainExampleWithoutWww()
    ensures DomainFromUrl("http://sub.example.org") == Ok("sub.example.org")
  {
    NetlocExampleWithoutWww();
    WwwAbsentExample();
  }

  // ---------------------------------------------------------------------
  // What the parser found in the page
  // ---------------------------------------------------------------------

  /** A `<meta property="og:...">` tag; `content` is None when the tag has no content attribute. */
  datatype MetaTag = MetaTag(content: Option<string>)

  /** The `<title>` element; `text` is BeautifulSoup's `.string`, None when it is not a single string. */
  datatype TitleElement = TitleElement(text: Option<string>)

  /** The tags `process_link` looks up; None where the page has no such tag. */
  datatype Html = Html(
    ogTitle: Option<MetaTag>,
    title: Option<TitleElement>,
    ogDescription: Option<MetaTag>,
    ogImage: Option<MetaTag>)

  const TitleLimit: nat := 249

  /**
   * The stored title: og:title's content if the tag exists, else the
   * `<title>` string if the element exists, else "", cut to 249 characters.
   * None when the chosen source is Python's None: slicing it raises TypeError.
   */
  function PageTitle(h: Html): (r: Option<string>)
    ensures r.Some? ==> |r.value| <= TitleLimit
    ensures h.ogTitle.Some? && h.ogTitle.value.content.Some? ==>
              r.Some? && StartsWith(h.ogTitle.value.content.value, r.value) && |r.value| == Min(|h.ogTitle.value.content.value|, TitleLimit)
    ensures h.ogTitle.None? && h.title.Some? && h.title.value.text.Some? ==>
              r.Some? && StartsWith(h.title.value.text.value, r.value) && |r.value| == Min(|h.title.value.text.value|, TitleLimit)
    ensures h.ogTitle.None? && h.title.None? ==> r == Some("")
    ensures r.None? <==> (h.ogTitle.Some? && h.ogTitle.value.content.None?) || (h.ogTitle.None? && h.title.Some? && h.title.value.text.None?)
  {
    var chosen :=
      match h.ogTitle
      case Some(tag) => tag.content
      case None =>
        match h.title
        case Some(t) => t.text
        case None => Some("");
    match chosen
    case None => None
    case Some(s) => Some(Take(s, TitleLimit))
  }

  function Min(a: int, b: int): int { if a <= b then a else b }

  /** The stored description: og:description's content (None without a content attribute), else "". */
  function PageDescription(h: Html): (r: Option<string>)
    ensures h.ogDescription.None? ==> r == Some("")
    ensures h.ogDescription.Some? ==> r == h.ogDescription.value.content
  {
    if h.ogDescription.Some? then h.ogDescription.value.content else Some("")
  }

  /** `og_img and og_img.get("content")`: an og:image tag with non-empty content. */
  predicate HasImageCandidate(h: Html) {
    h.ogImage.Some? && h.ogImage.value.content.Some? && h.ogImage.value.content.value != ""
  }

  // ---------------------------------------------------------------------
  // What the outside world did for one link
  // ---------------------------------------------------------------------

  /** `requests.get(link.url, ...)`: an exception, or a response with a status and parsed HTML. */
  datatype PageFetch = PageTransportError | PageResponse(status: int, html: Html)

  /**
   * `requests.get(img_url, ...)` and Pillow: an exception, or a response whose
   * body decodes to an image of `decoded` size (None: Pillow raises on it).
   */
  datatype ImageFetch = ImageTransportError | ImageResponse(status: int, decoded: Option<Dimensions>)

  /** How far `capture_screenshot_async` gets before something raises. */
  datatype BrowserRun =
    | LaunchFails       // chromium.launch raises
    | OpenPageFails     // new_context or new_page raises
    | NavigationFails   // goto or wait_for_timeout raises
    | CaptureFails      // screenshot, decoding or resizing raises
    | Captured          // the screenshot is stored

  datatype Scenario = Scenario(page: PageFetch, image: ImageFetch, browser: BrowserRun)

  /** `response.raise_for_status()` raises for 4xx and 5xx statuses only. */
  predicate RaisesForStatus(status: int) { 400 <= status < 600 }

  // ---------------------------------------------------------------------
  // The record and what processing does to it
  // ---------------------------------------------------------------------

  /** An image file stored for a link, known by its name and pixel size. */
  datatype StoredImage = StoredImage(name: string, size: Dimensions)

  /** A row of the outbound-link table; `downloaded` is `downloaded_datetime` being set. */
  datatype LinkRow = LinkRow(
    url: string,
    domain: Option<string>,
    title: Option<string>,
    description: Option<string>,
    image: Option<StoredImage>,
    downloaded: bool)

  /** The exception that ended `process_link` before the fallback. */
  datatype Failure =
    | FetchFailed
    | HttpError(status: int)
    | InvalidUrl
    | TitleNotText
    | ImageFetchFailed
    | ImageUndecodable

  /** Which way `process_link` went. */
  datatype Path =
    | Aborted(failure: Failure)   // the exception was logged; the fallback did not run
    | PreviewStored               // the og:image was stored and the method returned
    | Fallback(run: BrowserRun)   // the browser fallback ran, this far

  const PreviewBox: Dimensions := Size(600, 315)

  function PreviewName(id: nat): string { "preview_" + NatToString(id) + ".jpg" }

  function ScreenshotName(id: nat): string { "pageimg_" + NatToString(id) + ".jpg" }

  /** A finished record has an image. */
  predicate Consistent(row: LinkRow) { row.downloaded ==> row.image.Some? }

  /** The path stores an image and stamps the record. */
  predicate Completes(p: Path) { p == PreviewStored || p == Fallback(Captured) }

  /** The page was fetched and its metadata picked without an exception. */
  predicate MetadataReady(url: string, page: PageFetch) {
    && page.PageResponse?
    && !RaisesForStatus(page.status)
    && DomainFromUrl(url).Ok?
    && PageTitle(page.html).Some?
  }

  /** The exception, if any, that ends `process_link` before the metadata is saved. */
  function MetadataFailure(url: string, page: PageFetch): (f: Option<Failure>)
    ensures f.None? <==> MetadataReady(url, page)
  {
    match page
    case PageTransportError => Some(FetchFailed)
    case PageResponse(status, html) =>
      if RaisesForStatus(status) then Some(HttpError(status))
      else if DomainFromUrl(url).Err? then Some(InvalidUrl)
      else if PageTitle(html).None? then Some(TitleNotText)
      else None
  }

  /** The metadata the lightweight path writes. */
  function WithMetadata(row: LinkRow, page: PageFetch): LinkRow
    requires MetadataReady(row.url, page)
  {
    row.(domain := Some(DomainFromUrl(row.url).value),
         title := PageTitle(page.html),
         description := PageDescription(page.html))
  }

  datatype Run = Run(row: LinkRow, path: Path)

  /** The fallback's effect on a row: on success a 600x315 screenshot and the stamp, else nothing. */
  function FallbackRun(id: nat, row: LinkRow, b: BrowserRun): Run {
    if b == Captured then
      Run(row.(image := Some(StoredImage(ScreenshotName(id), PreviewBox)), downloaded := true), Fallback(b))
    else
      Run(row, Fallback(b))
  }

  /**
   * What follows the metadata save: with an og:image candidate and a fetch
   * that answers 200 and decodes, the preview is stored; a fetch exception or
   * an undecodable body ends the record; no candidate or any other status
   * runs the browser fallback. `meta` is the row as saved so far.
   */
  function ImageOutcome(id: nat, meta: LinkRow, html: Html, image: ImageFetch, browser: BrowserRun): Run {
    if !HasImageCandidate(html) then FallbackRun(id, meta, browser)
    else
      match image
      case ImageTransportError => Run(meta, Aborted(ImageFetchFailed))
      case ImageResponse(imageStatus, decoded) =>
        if imageStatus != 200 then FallbackRun(id, meta, browser)
        else if decoded.None? then Run(meta, Aborted(ImageUndecodable))
        else
          var preview := StoredImage(PreviewName(id), Thumbnail(decoded.value, PreviewBox));
          Run(meta.(image := Some(preview), downloaded := true), PreviewStored)
  }

  /**
   * The stored row and the path after `process_link` handles link `id`,
   * stored as `row`, in scenario `sc`.
   */
  function ProcessOutcome(id: nat, row: LinkRow, sc: Scenario): Run {
    match MetadataFailure(row.url, sc.page)
    case Some(failure) => Run(row, Aborted(failure))
    case None => ImageOutcome(id, WithMetadata(row, sc.page), sc.page.html, sc.image, sc.browser)
  }

  /**
   * What `process_link` promises about one record: a failed fetch or an
   * error status saves nothing and skips the fallback; nothing is saved
   * before the metadata is ready, and then it is saved as picked; the
   * fallback runs exactly when there is no og:image candidate or its fetch
   * answered a status other than 200; the stamp is set exactly on the two
   * storing paths, each with its image; the URL is never changed and a
   * finished record always has an image.
   */
  lemma ProcessOutcomeSpec(id: nat, row: LinkRow, sc: Scenario)
    ensures var r := ProcessOutcome(id, row, sc);
      && (!sc.page.PageResponse? || RaisesForStatus(sc.page.status) ==> r.row == row && r.path.Aborted?)
      && (!MetadataReady(row.url, sc.page) ==> r.row == row && r.path.Aborted?)
      && (MetadataReady(row.url, sc.page) ==> r.row.(image := row.image, downloaded := row.downloaded) == WithMetadata(row, sc.page))
      && (r.path.Fallback? <==>
            MetadataReady(row.url, sc.page) &&
            (!HasImageCandidate(sc.page.html) || (sc.image.ImageResponse? && sc.image.status != 200)))
      && (r.path.Fallback? ==> r.path.run == sc.browser)
      && (r.row.downloaded <==> row.downloaded || Completes(r.path))
      && (r.path == PreviewStored ==>
            && sc.image.ImageResponse? && sc.image.status == 200 && sc.image.decoded.Some?
            && r.row.image == Some(StoredImage(PreviewName(id), Thumbnail(sc.image.decoded.value, PreviewBox))))
      && (r.path == Fallback(Captured) ==> r.row.image == Some(StoredImage(ScreenshotName(id), PreviewBox)))
      && (!Completes(r.path) ==> r.row.image == row.image)
      && r.row.url == row.url
      && (Consistent(row) ==> Consistent(r.row))
  {
    if MetadataReady(row.url, sc.page) {
      var meta := WithMetadata(row, sc.page);
      assert ProcessOutcome(id, row, sc) == ImageOutcome(id, meta, sc.page.html, sc.image, sc.browser);
    }
  }

  /** Every image the command stores fits in 600x315; the preview never enlarges its source. */
  lemma StoredImagesFitPreviewBox(id: nat, row: LinkRow, sc: Scenario)
    requires Completes(ProcessOutcome(id, row, sc).path)
    ensures var r := ProcessOutcome(id, row, sc);
            && r.row.image.Some?
            && FitsIn(r.row.image.value.size, PreviewBox)
            && (r.path == PreviewStored ==>
                  sc.image.ImageResponse? && sc.image.decoded.Some? &&
                  FitsIn(r.row.image.value.size, sc.image.decoded.value))
  {
    var r := ProcessOutcome(id, row, sc);
    if r.path == PreviewStored {
      var src := sc.image.decoded.value;
      assert r.row.image.value.size == Thumbnail(src, PreviewBox) by {
        ProcessOutcomeSpec(id, row, sc);
      }
      ThumbnailShrinksToFit(src, PreviewBox);
    } else {
      assert r.row.image.value.size == PreviewBox by {
        ProcessOutcomeSpec(id, row, sc);
      }
    }
  }

  /**
   * The fallback leaves domain, title and description as the lightweight
   * path saved them: it only adds the screenshot and the stamp.
   */
  lemma FallbackKeepsMetadata(id: nat, row: LinkRow, sc: Scenario)
    requires ProcessOutcome(id, row, sc).path.Fallback?
    ensures var r := ProcessOutcome(id, row, sc).row;
            && r.domain == Some(DomainFromUrl(row.url).value)
            && r.title == PageTitle(sc.page.html)
            && r.description == PageDescription(sc.page.html)
  {
    ProcessOutcomeSpec(id, row, sc);
  }

  /**
   * A page with og:title "Hello" and an og:image that decodes to a
   * 2000x1000 picture give title "Hello", a 600x300 preview, the stamp, and
   * no fallback.
   */
  lemma LightweightExample(id: nat, url: string, ogImage: string, browser: BrowserRun)
    requires DomainFromUrl(url).Ok? && ogImage != ""
    ensures var html := Html(Some(MetaTag(Some("Hello"))), None, None, Some(MetaTag(Some(ogImage))));
            var sc := Scenario(PageResponse(200, html), ImageResponse(200, Some(Size(2000, 1000))), browser);
            var r := ProcessOutcome(id, LinkRow(url, None, None, None, None, false), sc);
            && r.path == PreviewStored
            && r.row.title == Some("Hello")
            && r.row.image == Some(StoredImage(PreviewName(id), Size(600, 300)))
            && r.row.downloaded
  {
    var src: Dimensions := Size(2000, 1000);
    assert Thumbnail(src, PreviewBox) == Size(600, 300) by {
      assert 600 * 1000 < 315 * 2000;
      assert 600 * 1000 / 2000 == 300;
    }
  }

  // ---------------------------------------------------------------------
  // The database table, the ORM instance and the browser
  // ---------------------------------------------------------------------

  /** The outbound-link table: one row per link id. */
  class LinkTable {
    var rows: map<nat, LinkRow>

    constructor (rows: map<nat, LinkRow>)
      ensures this.rows == rows
    {
      this.rows := rows;
    }
  }

  /** An `InducteeOutboundLink` instance loaded from the table. */
  class OutboundLink {
    const id: nat
    const url: string
    var domain: Option<string>
    var title: Option<string>
    var description: Option<string>
    var image: Option<StoredImage>
    var downloaded: bool

    /** The instance the ORM builds from row `row` of link `id`. */
    constructor Load(id: nat, row: LinkRow)
      ensures this.id == id && Fields() == row
    {
      this.id := id;
      this.url := row.url;
      this.domain := row.domain;
      this.title := row.title;
      this.description := row.description;
      this.image := row.image;
      this.downloaded := row.downloaded;
    }

    function Fields(): LinkRow
      reads this
    {
      LinkRow(url, domain, title, description, image, downloaded)
    }

    /** `save()` / `asave()`: the table row becomes the instance's fields. */
    method Save(db: LinkTable)
      modifies db
      ensures db.rows == old(db.rows)[id := Fields()]
    {
      db.rows := db.rows[id := Fields()];
    }
  }

  /** A launched headless browser. */
  class Browser {
    var open: bool

    constructor Launch()
      ensures open
    {
      open := true;
    }

    method Close()
      modifies this
      ensures !open
    {
      open := false;
    }
  }

  /**
   * How `capture_screenshot_async` ended: whether it raised, and whether
   * it left without its own `browser.close()` call.
   */
  datatype Teardown = Teardown(raised: bool, closeSkipped: bool)

  /**
   * `capture_screenshot_async`. Launching the browser and opening its page
   * happen outside the try block, so their exceptions propagate to the
   * caller; from navigation on, exceptions are swallowed and the `finally`
   * closes the browser. When opening the page fails, that `finally` is never
   * reached and the explicit close is skipped; the exit of the enclosing
   * `async with async_playwright()` block, which stops the driver, is not
   * part of this model. On success the screenshot, resized to exactly
   * 600x315, becomes `pageimg_<id>.jpg`, the stamp is set and the instance
   * saved. Domain, title and description are never touched.
   */
  method CaptureScreenshot(link: OutboundLink, db: LinkTable, run: BrowserRun) returns (t: Teardown)
    modifies link, db
    ensures t.raised <==> run == LaunchFails || run == OpenPageFails
    ensures t.closeSkipped <==> run == OpenPageFails
    ensures link.domain == old(link.domain) && link.title == old(link.title) && link.description == old(link.description)
    ensures run == Captured ==>
              && link.image == Some(StoredImage(ScreenshotName(link.id), PreviewBox))
              && link.downloaded
              && db.rows == old(db.rows)[link.id := link.Fields()]
    ensures run != Captured ==> link.Fields() == old(link.Fields()) && db.rows == old(db.rows)
  {
    if run == LaunchFails {
      return Teardown(true, false);
    }
    var browser := new Browser.Launch();
    if run == OpenPageFails {
      return Teardown(true, browser.open);
    }
    // try:
    if run == Captured {
      link.image := Some(StoredImage(ScreenshotName(link.id), PreviewBox));
      link.downloaded := true;
      link.Save(db);
    }
    // except: the error is written to stderr; finally:
    browser.Close();
    t := Teardown(false, browser.open);
  }

  /**
   * `process_link`: fetch the page, save domain, title and description, then
   * store the og:image preview, or else run the browser fallback. Any
   * exception is logged and ends the record's processing.
   */
  method ProcessLink(link: OutboundLink, db: LinkTable, sc: Scenario) returns (path: Path)
    requires link.id in db.rows && db.rows[link.id] == link.Fields()
    modifies link, db
    ensures path == ProcessOutcome(link.id, old(link.Fields()), sc).path
    ensures db.rows == old(db.rows)[link.id := ProcessOutcome(link.id, old(link.Fields()), sc).row]
  {
    ghost var out := ProcessOutcome(link.id, link.Fields(), sc);
    var failure := SaveMetadata(link, db, sc.page);
    if failure.Some? {
      return Aborted(failure.value);
    }
    path := StoreImage(link, db, sc.page.html, sc.image, sc.browser);
  }

  /**
   * The first half of `process_link`: fetch the page, check its status,
   * then set domain, title and description and save. Returns the exception
   * that ended it, if any; the row is saved only once all three are set.
   */
  method SaveMetadata(link: OutboundLink, db: LinkTable, page: PageFetch) returns (failure: Option<Failure>)
    requires link.id in db.rows && db.rows[link.id] == link.Fields()
    modifies link`domain, link`title, link`description, db
    ensures failure == MetadataFailure(link.url, page)
    ensures failure.Some? ==> db.rows == old(db.rows)
    ensures failure.None? ==>
              && link.Fields() == WithMetadata(old(link.Fields()), page)
              && db.rows == old(db.rows)[link.id := link.Fields()]
  {
    match page
    case PageTransportError =>
      return Some(FetchFailed);
    case PageResponse(status, html) =>
      if RaisesForStatus(status) {
        return Some(HttpError(status));
      }
      var domain := DomainFromUrl(link.url);
      if domain.Err? {
        return Some(InvalidUrl);
      }
      link.domain := Some(domain.value);
      var title := PageTitle(html);
      if title.None? {
        return Some(TitleNotText);
      }
      link.title := title;
      link.description := PageDescription(html);
      link.Save(db);
      return None;
  }

  /**
   * The rest of `process_link` once the metadata is saved: the og:image
   * preview, or the browser fallback.
   */
  method StoreImage(link: OutboundLink, db: LinkTable, html: Html, image: ImageFetch, browser: BrowserRun)
    returns (path: Path)
    requires link.id in db.rows && db.rows[link.id] == link.Fields()
    modifies link, db
    ensures path == ImageOutcome(link.id, old(link.Fields()), html, image, browser).path
    ensures db.rows == old(db.rows)[link.id := ImageOutcome(link.id, old(link.Fields()), html, image, browser).row]
  {
    if HasImageCandidate(html) {
      match image
      case ImageTransportError =>
        return Aborted(ImageFetchFailed);
      case ImageResponse(imageStatus, decoded) =>
        if imageStatus == 200 {
          if decoded.None? {
            return Aborted(ImageUndecodable);
          }
          link.image := Some(StoredImage(PreviewName(link.id), Thumbnail(decoded.value, PreviewBox)));
          link.downloaded := true;
          link.Save(db);
          return PreviewStored;
        }
    }
    var teardown := CaptureScreenshot(link, db, browser);
    path := Fallback(browser);
  }

  /** The ids `links_qs` selects: rows whose `downloaded_datetime` is unset. */
  function Pending(rows: map<nat, LinkRow>): (ids: set<nat>)
    ensures forall id :: id in ids <==> id in rows && !rows[id].downloaded
  {
    set id | id in rows && !rows[id].downloaded
  }

  /**
   * `handle`: every pending link is processed once, whatever happens to the
   * others; finished links are not touched. The queryset's order is not
   * significant, so the loop takes the pending ids in any order.
   */
  method Handle(db: LinkTable, world: nat -> Scenario) returns (paths: map<nat, Path>)
    modifies db
    ensures paths.Keys == Pending(old(db.rows))
    ensures db.rows.Keys == old(db.rows).Keys
    ensures forall id :: id in old(db.rows) && id !in paths ==> db.rows[id] == old(db.rows)[id]
    ensures forall id :: id in paths ==>
              && db.rows[id] == ProcessOutcome(id, old(db.rows)[id], world(id)).row
              && paths[id] == ProcessOutcome(id, old(db.rows)[id], world(id)).path
  {
    var todo := Pending(db.rows);
    paths := map[];
    if todo == {} {
      // "No links to process."
      return;
    }
    ghost var start := db.rows;
    while todo != {}
      invariant todo <= Pending(start)
      invariant paths.Keys == Pending(start) - todo
      invariant db.rows.Keys == start.Keys
      invariant forall id :: id in start && id !in paths ==> db.rows[id] == start[id]
      invariant forall id :: id in paths ==>
                  && db.rows[id] == ProcessOutcome(id, start[id], world(id)).row
                  && paths[id] == ProcessOutcome(id, start[id], world(id)).path
      decreases todo
    {
      var id :| id in todo;
      var link := new OutboundLink.Load(id, db.rows[id]);
      var path := ProcessLink(link, db, world(id));
      paths := paths[id := path];
      todo := todo - {id};
    }
  }

  /**
   * Running the command twice: a link the first run finished is not selected
   * again, and a link it left pending is selected again.
   */
  lemma RerunSelectsOnlyUnfinished(id: nat, row: LinkRow, sc: Scenario)
    ensures !row.downloaded ==>
              (ProcessOutcome(id, row, sc).row.downloaded <==> Completes(ProcessOutcome(id, row, sc).path))
    ensures var rows := map[id := ProcessOutcome(id, row, sc).row];
            id in Pending(rows) <==> !row.downloaded && !Completes(ProcessOutcome(id, row, sc).path)
  {
    ProcessOutcomeSpec(id, row, sc);
  }
}
