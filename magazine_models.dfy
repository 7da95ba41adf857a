/**
 * The page addressing of the magazine app: an issue page serves each of its
 * scanned pages under `<issue url>page-<n>`, names the page's image
 * renditions after the issue and the page number, and rewrites its own
 * title, description, Open Graph image and canonical URL for the page being
 * shown.
 *
 * The database is a `PageTable` object holding the `MagazinePage` rows keyed
 * by issue and page number; a `MagazineIssuePage` object is the Wagtail page
 * instance whose fields `GetContext` assigns.
 */
module MagazineModels {
  import opened Wrappers
  import opened Text

  // ---------------------------------------------------------------------
  // The admin title
  // ---------------------------------------------------------------------

  /** Python truthiness of a nullable small integer: set and non-zero. */
  predicate Truthy(n: Option<nat>) { n.Some? && n.value != 0 }

  /**
   * `get_admin_display_title`: the title, followed by
   * " - Volume V, Issue I" when both numbers are set and non-zero.
   */
  function AdminDisplayTitle(title: string, volume: Option<nat>, issue: Option<nat>): (r: string)
    ensures StartsWith(r, title)
    ensures r == title <==> !(Truthy(volume) && Truthy(issue))
    ensures Truthy(volume) && Truthy(issue) ==>
              r[|title|..] == " - Volume " + NatToString(volume.value) + ", Issue " + NatToString(issue.value)
  {
    if Truthy(volume) && Truthy(issue) then
      title + " - Volume " + NatToString(volume.value) + ", Issue " + NatToString(issue.value)
    else
      title
  }

  // ---------------------------------------------------------------------
  // Routing and the page number of a request
  // ---------------------------------------------------------------------

  /** What `route` does with the path components below the issue. */
  datatype RouteResult =
    | ServeIssue        // RouteResult(self): the issue page serves the request
    | DefaultRouting    // super().route(...): Wagtail's own routing (the issue itself, or a 404)

  /** `route`: one component starting with "page-" is served by the issue itself. */
  function Route(components: seq<string>): (r: RouteResult)
    ensures r == ServeIssue <==> |components| == 1 && StartsWith(components[0], "page-")
  {
    if components == [] then DefaultRouting
    else if |components| == 1 && StartsWith(components[0], "page-") then ServeIssue
    else DefaultRouting
  }

  /** `[bit for bit in path.split("/") if bit]`: the non-empty segments of a path. */
  function Segments(path: string): (bits: seq<string>)
    ensures forall i :: 0 <= i < |bits| ==> |bits[i]| > 0 && '/' !in bits[i]
  {
    var bits := Fields(path, {'/'});
    assert forall i :: 0 <= i < |bits| ==> NoneIn(bits[i], {'/'});
    bits
  }

  /**
   * The page number a last path segment asks for: when it contains "page-",
   * the text after its first "-" parsed as an integer; 1 when it does not
   * contain "page-" or the text does not parse.
   */
  function RequestedPageNumber(last: string): (n: int)
    ensures !Contains(last, "page-") ==> n == 1
    ensures Contains(last, "page-") ==>
              ('-' in last && n == (match ParseInt(AfterFirst(last, '-')) case Some(v) => v case None => 1))
  {
    if Contains(last, "page-") then
      ContainsHasChar(last, "page-", 4);
      ParseInt(AfterFirst(last, '-')).GetOr(1)
    else
      1
  }

  /** The segment `get_context` falls back on asks for page 1. */
  lemma DefaultPageSegment()
    ensures Contains("page-1", "page-") && '-' in "page-1"
    ensures AfterFirst("page-1", '-') == "1" && ParseInt("1") == Some(1)
  {
    DefaultSegmentHasPrefix();
    DefaultSegmentChunk();
    ParseOne();
  }

  lemma DefaultSegmentHasPrefix()
    ensures Contains("page-1", "page-")
  {
    assert StartsWith("page-1", "page-");
  }

  lemma DefaultSegmentChunk()
    ensures '-' in "page-1" && AfterFirst("page-1", '-') == "1"
  {
    assert "page-1" == "page" + ['-'] + "1";
    AfterFirstSplit("page", '-', "1");
  }

  lemma ParseOne()
    ensures ParseInt("1") == Some(1)
  {
    assert AllDigits("1") && "1"[..0] == [];
  }

  /** The exceptions `get_context` can raise. */
  datatype ContextError =
    | NoPathSegment      // IndexError: the request path has no non-empty segment
    | PageDoesNotExist   // MagazinePage.DoesNotExist: the issue has no page 1 either

  /**
   * The page `get_context` shows for request path `path` of an issue whose
   * pages are numbered `pages`: the requested number if such a page exists,
   * else page 1.
   */
  function PageNumber(path: string, pages: set<nat>): (r: Result<nat, ContextError>)
    ensures r == Err(NoPathSegment) <==> Segments(path) == []
    ensures r.Ok? ==> r.value in pages
    ensures Segments(path) != [] ==>
              var n := RequestedPageNumber(Segments(path)[|Segments(path)| - 1]);
              && (n >= 0 && n as nat in pages ==> r == Ok(n as nat))
              && (!(n >= 0 && n as nat in pages) ==> r == if 1 in pages then Ok(1) else Err(PageDoesNotExist))
  {
    var bits := Segments(path);
    if bits == [] then Err(NoPathSegment)
    else
      var n := RequestedPageNumber(bits[|bits| - 1]);
      if n >= 0 && n as nat in pages then Ok(n as nat)
      else if 1 in pages then Ok(1)
      else Err(PageDoesNotExist)
  }

  /** The title of the issue page while it shows page `n`: " - Page N" is added beyond page 1. */
  function TitleForPage(title: string, n: nat): (r: string)
    ensures StartsWith(r, title)
    ensures r == title <==> n <= 1
    ensures n > 1 ==> r[|title|..] == " - Page " + NatToString(n)
  {
    if n > 1 then title + " - Page " + NatToString(n) else title
  }

  const DescriptionLimit: nat := 150

  /**
   * The search description for a page's text: the text with whitespace
   * collapsed; beyond 150 characters, its first 147 characters with
   * trailing whitespace trimmed, followed by "...".
   */
  function SearchDescription(text: string): string {
    var clean := Collapse(text);
    if |clean| > DescriptionLimit then Strip(clean[..DescriptionLimit - 3]) + "..." else clean
  }

  /**
   * The description fits the 150-character limit; a shorter collapsed text
   * is kept whole. A longer one keeps its first 147 characters less the
   * whitespace at their end (a single space at most, the text being
   * collapsed), so at least 146, and is marked with "...".
   */
  lemma SearchDescriptionFits(text: string)
    ensures var r := SearchDescription(text);
            && |r| <= DescriptionLimit
            && (|Collapse(text)| <= DescriptionLimit ==> r == Collapse(text))
            && (|Collapse(text)| > DescriptionLimit ==>
                  && |r| >= DescriptionLimit - 1
                  && EndsWith(r, "...")
                  && StartsWith(Collapse(text), r[..|r| - 3])
                  && r[|r| - 4] !in Whitespace
                  && forall i :: |r| - 3 <= i < DescriptionLimit - 3 ==> Collapse(text)[i] in Whitespace)
  {
    var clean := Collapse(text);
    if |clean| > DescriptionLimit {
      CollapseShape(text);
      var head := clean[..DescriptionLimit - 3];
      CollapsedPrefixStrip(clean, DescriptionLimit - 3);
      var kept := StripRight(head);
      var r := kept + "...";
      assert r[..|r| - 3] == kept;
      forall i | |r| - 3 <= i < DescriptionLimit - 3
        ensures clean[i] in Whitespace
      {
        assert head[i] == clean[i];
      }
    }
  }

  /**
   * Stripping a proper prefix of a whitespace-collapsed text leaves its
   * start alone and removes at most its last character.
   */
  lemma CollapsedPrefixStrip(s: string, n: nat)
    requires WhitespaceCollapsed(s)
    requires 2 <= n < |s|
    ensures Strip(s[..n]) == StripRight(s[..n])
    ensures |StripRight(s[..n])| >= n - 1
  {
    var head := s[..n];
    assert head[0] == s[0];
    assert StripLeft(head) == head;
    assert s[n - 2] !in Whitespace || s[n - 1] !in Whitespace;
    assert head[n - 2] == s[n - 2] && head[n - 1] == s[n - 1];
  }

  /** The description step of `get_context`, as it reassigns `clean_text`. */
  method CleanDescription(text: string) returns (cleanText: string)
    ensures cleanText == SearchDescription(text)
  {
    cleanText := Collapse(text);
    if |cleanText| > DescriptionLimit {
      cleanText := Strip(cleanText[..DescriptionLimit - 3]) + "...";
    }
  }

  // ---------------------------------------------------------------------
  // Rendition file names and URLs
  // ---------------------------------------------------------------------

  /**
   * `get_filename(prefix)`: "L" and "OG" give `<pk>/<prefix>-<page, zero-padded
   * to two digits>.jpg`; any other prefix gives `<pk>/<prefix><page>-<guid>.jpg`.
   */
  function GetFilename(pk: nat, page: nat, guid: string, prefix: string): string {
    if prefix == "L" || prefix == "OG" then
      NatToString(pk) + "/" + prefix + "-" + PadLeft(NatToString(page), 2, '0') + ".jpg"
    else
      NatToString(pk) + "/" + prefix + NatToString(page) + "-" + guid + ".jpg"
  }

  /** The image renditions of a magazine page. */
  datatype Rendition = Thumb | Small | Medium | Original | OpenGraph

  function Prefix(r: Rendition): (p: string)
    ensures |p| > 0
  {
    match r
    case Thumb => "T"
    case Small => "S"
    case Medium => "M"
    case Original => "L"
    case OpenGraph => "OG"
  }

  /** The letter each rendition's prefix starts with. */
  function Initial(r: Rendition): char {
    match r
    case Thumb => 'T'
    case Small => 'S'
    case Medium => 'M'
    case Original => 'L'
    case OpenGraph => 'O'
  }

  /** Different renditions have prefixes with different first letters. */
  lemma PrefixInitialsDistinct(r1: Rendition, r2: Rendition)
    requires r1 != r2
    ensures Prefix(r1)[0] != Prefix(r2)[0]
  {
    assert Prefix(r1)[0] == Initial(r1) && Prefix(r2)[0] == Initial(r2);
  }

  /** The `get_<rendition>_filename` properties. */
  function RenditionFilename(pk: nat, page: nat, guid: string, r: Rendition): string {
    GetFilename(pk, page, guid, Prefix(r))
  }

  /** `get_base_url`: where the renditions are served from. */
  function BaseUrl(mediaUrl: string): string { mediaUrl + "magazines/" }

  /** The `get_<rendition>_url` properties. */
  function RenditionUrl(mediaUrl: string, pk: nat, page: nat, guid: string, r: Rendition): string {
    BaseUrl(mediaUrl) + RenditionFilename(pk, page, guid, r)
  }

  /** Python's `f"{x}"` of an optional string: None prints as "None". */
  function Show(s: Option<string>): string {
    match s
    case Some(v) => v
    case None => "None"
  }

  /** `get_page_link`: the issue's URL followed by "page-<n>". */
  function GetPageLink(issueUrl: Option<string>, page: nat): string {
    Show(issueUrl) + "page-" + NatToString(page)
  }

  // ---------------------------------------------------------------------
  // Properties of addressing
  // ---------------------------------------------------------------------

  /**
   * The round trip of a page link: below an issue URL ending in "/", the
   * link adds exactly one segment, `route` serves that segment from the
   * issue, and `get_context` reads the same page number back when the page
   * exists (page 1 otherwise).
   */
  lemma PageLinkRoundTrip(issueUrl: string, page: nat, pages: set<nat>)
    requires issueUrl == [] || issueUrl[|issueUrl| - 1] == '/'
    ensures var link := GetPageLink(Some(issueUrl), page);
            var segment := "page-" + NatToString(page);
            && Segments(link) == Segments(issueUrl) + [segment]
            && Route([segment]) == ServeIssue
            && (page in pages ==> PageNumber(link, pages) == Ok(page))
            && (page !in pages && 1 in pages ==> PageNumber(link, pages) == Ok(1))
  {
    var segment := "page-" + NatToString(page);
    assert GetPageLink(Some(issueUrl), page) == issueUrl + segment;
    PageSegmentHasNoSlash(page);
    FieldsAppend(issueUrl, segment, {'/'});
    PageSegmentRequestsPage(page);
    assert Segments(issueUrl + segment)[|Segments(issueUrl + segment)| - 1] == segment;
  }

  lemma PageSegmentHasNoSlash(page: nat)
    ensures NoneIn("page-" + NatToString(page), {'/'})
    ensures |"page-" + NatToString(page)| > 0
  {
    var digits := NatToString(page);
    var segment := "page-" + digits;
    forall i | 0 <= i < |segment| ensures segment[i] !in {'/'} {
      if i >= 5 {
        assert segment[i] == digits[i - 5];
      }
    }
  }

  /** The segment `page-<n>` asks for page `n`, and routes to the issue. */
  lemma PageSegmentRequestsPage(page: nat)
    ensures StartsWith("page-" + NatToString(page), "page-")
    ensures RequestedPageNumber("page-" + NatToString(page)) == page
  {
    var digits := NatToString(page);
    var segment := "page-" + digits;
    assert StartsWith(segment, "page-");
    assert Contains(segment, "page-");
    assert segment == "page" + ['-'] + digits;
    AfterFirstSplit("page", '-', digits);
    ParseIntOfNatToString(page);
  }

  /** Zero-padding to two digits keeps the number a page's digits denote. */
  lemma PaddedPageValue(page: nat)
    ensures AllDigits(PadLeft(NatToString(page), 2, '0'))
    ensures DigitsValue(PadLeft(NatToString(page), 2, '0')) == page
  {
    var digits := NatToString(page);
    DigitsValueOfNatToString(page);
    if |digits| < 2 {
      assert PadLeft(digits, 2, '0') == "0" + digits;
      DigitsValueLeadingZero(digits);
    }
  }

  /** A file name's directory is the issue's primary key. */
  lemma IssueDirectory(pk: nat, name: string)
    ensures FieldAt(NatToString(pk) + "/" + name, {'/'}) == NatToString(pk)
  {
    var d := NatToString(pk);
    assert d + "/" + name == d + ['/'] + name;
    assert NoneIn(d, {'/'});
    FieldAtSplit(d, '/', name, {'/'});
  }

  /** The "L" and "OG" names: the issue directory, then `<prefix>-<padded page>.jpg`. */
  lemma PaddedFilename(pk: nat, page: nat, guid: string, prefix: string)
    requires prefix == "L" || prefix == "OG"
    ensures GetFilename(pk, page, guid, prefix) ==
              NatToString(pk) + "/" + (prefix + "-" + PadLeft(NatToString(page), 2, '0') + ".jpg")
  {
  }

  /** Names in issue directories are equal only for the same issue and the same name. */
  lemma IssueDirectoryInjective(pk1: nat, pk2: nat, name1: string, name2: string)
    requires NatToString(pk1) + "/" + name1 == NatToString(pk2) + "/" + name2
    ensures pk1 == pk2 && name1 == name2
  {
    var f := NatToString(pk1) + "/" + name1;
    IssueDirectory(pk1, name1);
    IssueDirectory(pk2, name2);
    NatToStringInjective(pk1, pk2);
    assert f[|NatToString(pk1)| + 1..] == name1;
    assert f[|NatToString(pk2)| + 1..] == name2;
  }

  /**
   * The original ("L") and Open Graph ("OG") file names identify the page:
   * two pages with the same name are the same page of the same issue.
   */
  lemma PaddedFilenameIdentifiesPage(pk1: nat, page1: nat, guid1: string, pk2: nat, page2: nat, guid2: string, prefix: string)
    requires prefix == "L" || prefix == "OG"
    requires GetFilename(pk1, page1, guid1, prefix) == GetFilename(pk2, page2, guid2, prefix)
    ensures pk1 == pk2 && page1 == page2
  {
    var n1, n2 := PadLeft(NatToString(page1), 2, '0'), PadLeft(NatToString(page2), 2, '0');
    var name1, name2 := prefix + "-" + n1 + ".jpg", prefix + "-" + n2 + ".jpg";
    PaddedFilename(pk1, page1, guid1, prefix);
    PaddedFilename(pk2, page2, guid2, prefix);
    IssueDirectoryInjective(pk1, pk2, name1, name2);
    PaddedNameInjective(prefix, n1, n2);
    PaddedPageValue(page1);
    PaddedPageValue(page2);
  }

  lemma PaddedNameInjective(prefix: string, n1: string, n2: string)
    requires prefix + "-" + n1 + ".jpg" == prefix + "-" + n2 + ".jpg"
    ensures n1 == n2
  {
    var name1, name2 := prefix + "-" + n1 + ".jpg", prefix + "-" + n2 + ".jpg";
    assert name1[|prefix| + 1..|name1| - 4] == n1;
    assert name2[|prefix| + 1..|name2| - 4] == n2;
  }

  /** Right after the issue directory, a file name holds its prefix's first letter. */
  lemma FilenameInitial(pk: nat, page: nat, guid: string, prefix: string)
    requires |prefix| > 0
    ensures |GetFilename(pk, page, guid, prefix)| > |NatToString(pk)| + 1
    ensures GetFilename(pk, page, guid, prefix)[|NatToString(pk)| + 1] == prefix[0]
  {
    var d := NatToString(pk);
    assert (d + "/" + prefix)[|d| + 1] == prefix[0];
  }

  /** The five renditions of a page have five different file names. */
  lemma RenditionFilenamesDistinct(pk: nat, page: nat, guid: string, r1: Rendition, r2: Rendition)
    requires r1 != r2
    ensures RenditionFilename(pk, page, guid, r1) != RenditionFilename(pk, page, guid, r2)
  {
    var i := |NatToString(pk)| + 1;
    FilenameInitial(pk, page, guid, Prefix(r1));
    FilenameInitial(pk, page, guid, Prefix(r2));
    PrefixInitialsDistinct(r1, r2);
    assert RenditionFilename(pk, page, guid, r1)[i] != RenditionFilename(pk, page, guid, r2)[i];
  }

  /** Different names under the same base give different URLs. */
  lemma BaseUrlInjective(base: string, name1: string, name2: string)
    requires name1 != name2
    ensures base + name1 != base + name2
  {
    assert (base + name1)[|base|..] == name1;
    assert (base + name2)[|base|..] == name2;
  }

  /** The five renditions of a page have five different file names, and so five different URLs. */
  lemma RenditionsDistinct(mediaUrl: string, pk: nat, page: nat, guid: string, r1: Rendition, r2: Rendition)
    requires r1 != r2
    ensures RenditionFilename(pk, page, guid, r1) != RenditionFilename(pk, page, guid, r2)
    ensures RenditionUrl(mediaUrl, pk, page, guid, r1) != RenditionUrl(mediaUrl, pk, page, guid, r2)
  {
    RenditionFilenamesDistinct(pk, page, guid, r1, r2);
    BaseUrlInjective(BaseUrl(mediaUrl), RenditionFilename(pk, page, guid, r1), RenditionFilename(pk, page, guid, r2));
  }

  // ---------------------------------------------------------------------
  // The page table and the issue page
  // ---------------------------------------------------------------------

  /** A JSON `page_number` value: absent, null, or an integer. */
  datatype PageNumberField = Missing | Null | Number(value: int)

  /**
   * One entry of the extracted page metadata, as the JSON reply gives it;
   * each text field is None when the key is absent or null.
   */
  datatype PageMetadata = PageMetadata(
    pageNumber: PageNumberField,
    pageTitle: Option<string>,
    storyTitle: Option<string>,
    storyAuthor: Option<string>,
    storyTeaser: Option<string>)

  /** A `MagazinePage` row is identified by its issue and page number. */
  datatype PageKey = PageKey(issue: nat, page: nat)

  /** A `MagazinePage` row; `aiData` None is the default empty JSON object. */
  datatype PageRow = PageRow(
    text: string,
    guid: string,
    aiPageTitle: Option<string>,
    aiStoryTitle: Option<string>,
    aiStoryAuthor: Option<string>,
    aiStorySummary: Option<string>,
    aiData: Option<PageMetadata>)

  /** The `MagazinePage` table. */
  class PageTable {
    var rows: map<PageKey, PageRow>

    constructor (rows: map<PageKey, PageRow>)
      ensures this.rows == rows
    {
      this.rows := rows;
    }
  }

  /** The page numbers of issue `pk` (`issue.pages`). */
  function IssuePages(rows: map<PageKey, PageRow>, pk: nat): set<nat> {
    set k | k in rows && k.issue == pk :: k.page
  }

  /** The pages of issue `pk` are exactly the page numbers of its rows. */
  lemma IssuePagesAreRows(rows: map<PageKey, PageRow>, pk: nat, p: nat)
    ensures p in IssuePages(rows, pk) <==> PageKey(pk, p) in rows
  {
    if PageKey(pk, p) in rows {
      assert PageKey(pk, p).page == p;
    }
  }

  /** A `MagazineIssuePage` instance. */
  class MagazineIssuePage {
    const pk: nat
    const url: Option<string>
    /** The file of the issue's `download_pdf` document, if it has one. */
    const downloadPdf: Option<string>
    var title: string
    var volumeNumber: Option<nat>
    var issueNumber: Option<nat>
    var searchDescription: string
    var ogImageUrl: string
    var canonicalUrl: Option<string>
    var aiData: Option<seq<PageMetadata>>
    var aiProcessed: bool

    constructor (pk: nat, url: Option<string>, downloadPdf: Option<string>, title: string, volumeNumber: Option<nat>, issueNumber: Option<nat>)
      ensures this.pk == pk && this.url == url && this.downloadPdf == downloadPdf && this.title == title
      ensures this.volumeNumber == volumeNumber && this.issueNumber == issueNumber
      ensures aiData.None? && !aiProcessed
    {
      this.pk := pk;
      this.url := url;
      this.downloadPdf := downloadPdf;
      this.title := title;
      this.volumeNumber := volumeNumber;
      this.issueNumber := issueNumber;
      this.searchDescription := "";
      this.ogImageUrl := "";
      this.canonicalUrl := None;
      this.aiData := None;
      this.aiProcessed := false;
    }

    /**
     * `get_context` for request path `path`: resolve the page shown, then
     * point the title, description, Open Graph image and canonical URL at
     * it. Returns the page number put in the context; on an exception
     * nothing has been assigned yet.
     */
    method GetContext(table: PageTable, path: string, mediaUrl: string) returns (r: Result<nat, ContextError>)
      modifies this`title, this`searchDescription, this`ogImageUrl, this`canonicalUrl
      ensures r == PageNumber(path, IssuePages(table.rows, pk))
      ensures r.Err? ==>
                && title == old(title) && searchDescription == old(searchDescription)
                && ogImageUrl == old(ogImageUrl) && canonicalUrl == old(canonicalUrl)
      ensures r.Ok? ==>
                var row := table.rows[PageKey(pk, r.value)];
                && title == TitleForPage(old(title), r.value)
                && searchDescription == SearchDescription(row.text)
                && ogImageUrl == RenditionUrl(mediaUrl, pk, r.value, row.guid, OpenGraph)
                && canonicalUrl == url
    {
      r := ResolvePage(table, path);
      if r.Err? {
        return;
      }
      var current := r.value;
      var currentPage := table.rows[PageKey(pk, current)];

      title := TitleForPage(title, current);

      searchDescription := CleanDescription(currentPage.text);

      ogImageUrl := RenditionUrl(mediaUrl, pk, current, currentPage.guid, OpenGraph);
      canonicalUrl := url;
    }

    /** The page number a path segment asks for: `int()` of what follows `page-`, or 1. */
    static method ParsePageSegment(lastBit: string) returns (currentPagenum: int)
      ensures currentPagenum == RequestedPageNumber(lastBit)
    {
      var pagenumStr: string;
      if Contains(lastBit, "page-") {
        pagenumStr := lastBit;
        ContainsHasChar(lastBit, "page-", 4);
      } else {
        pagenumStr := "page-1";
        DefaultPageSegment();
      }
      var chunk := AfterFirst(pagenumStr, '-');
      match ParseInt(chunk) {
        case Some(n) => currentPagenum := n;
        case None => currentPagenum := 1;
      }
    }

    /**
     * The first half of `get_context`: the page number named by the last
     * path segment, falling back to page 1, or the exception raised.
     */
    method ResolvePage(table: PageTable, path: string) returns (r: Result<nat, ContextError>)
      ensures r == PageNumber(path, IssuePages(table.rows, pk))
      ensures r.Ok? ==> PageKey(pk, r.value) in table.rows
    {
      var pages := IssuePages(table.rows, pk);
      var pathBits := Segments(path);
      if pathBits == [] {
        return Err(NoPathSegment);
      }
      var lastBit := pathBits[|pathBits| - 1];
      var currentPagenum := ParsePageSegment(lastBit);
      if !(currentPagenum >= 0 && currentPagenum as nat in pages) {
        currentPagenum := 1;
      }
      if currentPagenum !in pages {
        assert PageNumber(path, pages) == Err(PageDoesNotExist);
        return Err(PageDoesNotExist);
      }
      assert PageNumber(path, pages) == Ok(currentPagenum);
      IssuePagesAreRows(table.rows, pk, currentPagenum);
      return Ok(currentPagenum);
    }
  }
}
