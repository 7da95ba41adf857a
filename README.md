# The Wisconsin Aviation Hall of Fame site: link cards and the magazine archive

This project models, in Dafny, the core of the site's content pipeline. It
covers four parts.

- **Link cards for inductee outbound links** (`crawl_inductee_links`). Each
  link whose `downloaded_datetime` is unset is processed once:
  - its page is fetched and its domain, title (cut to 249 characters) and
    description are saved;
  - then either the page's `og:image` is stored as a thumbnail that fits
    600x315, or a headless-browser screenshot resized to 600x315 is stored;
  - in both cases the record is stamped.
- **The magazine issue page** (`magazine/models.py`).
  - It routes `page-<n>` below an issue to the issue itself.
  - It reads the page number back from the request path, falling back to
    page 1.
  - It rewrites its title, search description, Open Graph image and
    canonical URL for the page shown.
  - It names every page image rendition after the issue's primary key and
    the page number.
- **Page metadata import** (`process_magazine_pages`). For every issue not
  yet processed, the extracted entry list is written into the page rows, one
  entry per page number. Then the issue is stamped with the list.
- **Open Graph previews** (`import_magazines_og_img`). Every large page image
  `L-NN.jpg` gets an `OG-NN.jpg` beside it, 1300x630 and cut from the top. An
  existing preview is never overwritten, and the command counts the previews
  it wrote.

## How the model is laid out

Each file is one module:

| file | module | what it holds |
|---|---|---|
| `wrappers.dfy` | `Wrappers` | `Option` and `Result` |
| `text.dfy` | `Text` | the Python string operations the code relies on (`str(n)`, `int(s)`, `s[:n]`, `split`, `join`, `strip`, `replace`, `rfind`, format padding), with their laws |
| `imaging.dfy` | `Imaging` | the size arithmetic of Pillow's `Image.thumbnail` |
| `crawl_inductee_links.dfy` | `CrawlInducteeLinks` | the link-card command |
| `magazine_models.dfy` | `MagazineModels` | the issue page, page rows and rendition names |
| `process_magazine_pages.dfy` | `ProcessMagazinePages` | the metadata import |
| `import_magazines_og_img.dfy` | `ImportMagazinesOgImg` | the preview command |

Code that updates state in place is modelled as Dafny classes, and their
methods are proved against pure specification functions:

- The database tables are classes holding a `map` of rows: `LinkTable` and
  `PageTable`. The media directory is a `MediaFiles` class holding a map
  from path to file.
- The ORM instances the code assigns field by field are classes:
  `OutboundLink` and `MagazineIssuePage`.
- Each loop in the source is a method with a `while` loop, proved against a
  pure specification:
  - `ProcessMagazinePages.ProcessData` against `ApplyAll`;
  - `ImportMagazinesOgImg.Handle` against `RunAll`;
  - `CrawlInducteeLinks.Handle` against `ProcessOutcome`;
  - `ProcessMagazinePages.Handle` against `PagesAfter` and `Handled`.
- The lemmas then prove what the source promises about those functions.

The outside world is a parameter:

- what the network, the HTML parser and the browser did for a link is a
  `Scenario`;
- what the extraction service returned for an issue is a `Reply`;
- an image is known only by its size.

Three places where the code's behaviour may surprise a reader. The model
follows the code in each case.

- **`raise_for_status`.** It raises only for statuses 400 to 599, not for
  every status outside 2xx.
- **Exceptions in `process_link`.**
  - An exception while fetching or decoding the `og:image` ends the
    record's processing; the browser fallback does not run then.
  - The fallback never rewrites the metadata that was already saved.
  - When the browser fails to open its page, the error is raised before
    the `try`, so the `finally` with its `browser.close()` is skipped. The
    browser then ends only with the `async with async_playwright()` block
    around it.
- **`process_magazine_pages`.**
  - An issue without a PDF makes `magazine.download_pdf.file` raise outside
    the `try` (`process_magazine_pages.py:50`), which ends the whole
    command.
  - Entries that `process_data` applied before hitting an entry without
    `page_number` stay applied, and that issue stays unstamped.

## Model

| member | source | states |
|---|---|---|
| Text.NatToString | magazine/models.py:211 | `str(n)`: at least one ASCII digit, a single digit exactly below 10, no leading zero |
| Text.ParseIntOfNatToString | magazine/models.py:90 | `int(str(n)) == n`: parsing a printed page number gives it back |
| Text.NatToStringInjective | magazine/models.py:211 | different numbers print differently, so a primary key in a file name identifies the issue |
| Text.DigitsValueLeadingZero | magazine/models.py:211 | a leading `0` does not change the number a digit string denotes |
| Text.PadLeft | magazine/models.py:211 | `{page:0>2}`: width is the larger of the length and 2, the text is kept at the right, the rest is fill |
| Text.Take | content/management/commands/crawl_inductee_links.py:56-60 | `s[:n]` is a prefix of `s` of length `min(len(s), n)` |
| Text.RemoveAll | content/management/commands/crawl_inductee_links.py:18 | `replace("www.", "")` never lengthens the text, leaves it alone when `www.` is absent, and shortens it by at least 4 when present; `RemoveAllScan` pins its value |
| Text.RemoveAllScan | content/management/commands/crawl_inductee_links.py:18 | the replace scans left to right: the text before the first `www.` is kept as it is, that `www.` is dropped and the scan resumes after it |
| Text.RemoveAllUnchangedIff | content/management/commands/crawl_inductee_links.py:18 | the replace leaves the host unchanged exactly when it does not contain `www.` |
| Text.ReplaceFirst | magazine/management/commands/import_magazines_og_img.py:22 | `replace(pat, rep, 1)` rewrites a leading `pat` to `rep` and leaves a text without `pat` unchanged |
| Text.AfterFirst | magazine/models.py:87 | `split("-", 1)[1]` is the text after the first `-`, which the text before it does not contain |
| Text.AfterFirstSplit | magazine/models.py:87 | for `a + "-" + b` with no `-` in `a`, the chunk is exactly `b` |
| Text.LastIndexOf | magazine/management/commands/import_magazines_og_img.py:19-20 | `rfind("/")` finds the last `/` when there is one and none otherwise |
| Text.Fields | magazine/models.py:84 | the parts of a split are non-empty and hold no separator |
| Text.FieldsAppend | magazine/models.py:84 | appending a slash-free segment after a `/` adds exactly that segment to the split path |
| Text.FieldsOfJoin | magazine/models.py:105 | splitting words joined by single spaces gives the words back |
| Text.CollapseShape | magazine/models.py:105 | `" ".join(text.split())` has only single spaces between words, none at the ends, and the same words |
| Text.CollapseIdempotent | magazine/models.py:105 | collapsing whitespace twice is collapsing it once |
| Text.StripRight | magazine/models.py:107 | the trimmed text is a prefix that does not end in whitespace, and every character removed is whitespace |
| Text.StripLeft | magazine/models.py:107 | the trimmed text is a suffix that does not start with whitespace, every character removed is whitespace, and text with no leading whitespace is unchanged |
| Imaging.ThumbnailShrinksToFit | content/management/commands/crawl_inductee_links.py:78 | `thumbnail((600, 315))` gives a size inside the box that is never larger than the source; it leaves an image that already fits alone; otherwise one side equals the box; the aspect ratio is kept to within a pixel |
| Imaging.HeightBindsResult | content/management/commands/crawl_inductee_links.py:78 | when the source is relatively taller, the height becomes the box height and the width is the rounded exact width |
| Imaging.WidthBindsResult | content/management/commands/crawl_inductee_links.py:78 | when the source is relatively wider, the width becomes the box width and the height is the rounded exact height |
| CrawlInducteeLinks.StripLeadingControls | content/management/commands/crawl_inductee_links.py:17 | `urlparse` first drops leading control characters and spaces: the result is a suffix starting above space, and every character dropped is at most a space |
| CrawlInducteeLinks.RemoveTabsAndNewlines | content/management/commands/crawl_inductee_links.py:17 | `urlparse` deletes tabs, CR and LF: none remain, a URL without them is unchanged, and a single character is deleted exactly when it is one of them |
| CrawlInducteeLinks.RemoveTabsAndNewlinesAppend | content/management/commands/crawl_inductee_links.py:17 | the deletion distributes over concatenation, so with the one-character case every other character is kept, in order |
| CrawlInducteeLinks.AfterScheme | content/management/commands/crawl_inductee_links.py:17 | `urlsplit` cuts off a scheme of a letter then letters, digits, `+`, `-` or `.`, with its colon; `AfterWellFormedScheme` pins the value |
| CrawlInducteeLinks.Netloc | content/management/commands/crawl_inductee_links.py:17 | `urlparse(url).netloc`: after the scheme, a `//` opens an authority that runs to the first `/`, `?` or `#`; a lone `[` or `]` raises ValueError; `NetlocOfAbsoluteUrl` pins the value |
| CrawlInducteeLinks.DomainFromUrl | content/management/commands/crawl_inductee_links.py:16-19 | `get_domain_from_url` fails exactly when `urlparse` raises; otherwise it is no longer than the netloc and equals it exactly when the netloc has no `www.`; `DomainDropsFirstWww` and `DomainOfWwwHost` pin its value |
| CrawlInducteeLinks.DomainDropsFirstWww | content/management/commands/crawl_inductee_links.py:16-19 | for a netloc `a + "www." + b` with no `www.` starting inside `a`, the domain is `a` followed by `b` with its `www.` removed |
| CrawlInducteeLinks.DomainOfWwwHost | content/management/commands/crawl_inductee_links.py:16-19 | a netloc `www.<h>` whose `h` has no `www.` gives the domain `h`, whatever `h` is |
| CrawlInducteeLinks.AfterWellFormedScheme | content/management/commands/crawl_inductee_links.py:17 | a scheme of a letter then letters, digits, `+`, `-` or `.` is cut off with its colon |
| CrawlInducteeLinks.AuthorityOf | content/management/commands/crawl_inductee_links.py:17 | the authority runs to the first `/`, `?` or `#` |
| CrawlInducteeLinks.NetlocOfAbsoluteUrl | content/management/commands/crawl_inductee_links.py:17 | the netloc of `scheme://host/...` is `host` |
| CrawlInducteeLinks.NetlocExampleWithWww | content/management/commands/crawl_inductee_links.py:17 | `urlparse("https://www.example.com/a/b").netloc` is `www.example.com` |
| CrawlInducteeLinks.DomainExampleWithWww | content/management/commands/crawl_inductee_links.py:16-19 | `https://www.example.com/a/b` gives the domain `example.com` |
| CrawlInducteeLinks.NetlocExampleWithoutWww | content/management/commands/crawl_inductee_links.py:17 | `urlparse("http://sub.example.org").netloc` is `sub.example.org` |
| CrawlInducteeLinks.DomainExampleWithoutWww | content/management/commands/crawl_inductee_links.py:16-19 | `http://sub.example.org` keeps its whole host as the domain |
| CrawlInducteeLinks.WwwRemovedExample | content/management/commands/crawl_inductee_links.py:18 | `"www.example.com".replace("www.", "")` is `example.com` |
| CrawlInducteeLinks.WwwAbsentExample | content/management/commands/crawl_inductee_links.py:18 | a host without `www.` is unchanged by the replace |
| CrawlInducteeLinks.PageTitle | content/management/commands/crawl_inductee_links.py:56-60 | the title is `og:title`'s content if the tag exists, else the `<title>` string, else empty; it is cut to at most 249 characters; it raises exactly when the chosen value is None |
| CrawlInducteeLinks.PageDescription | content/management/commands/crawl_inductee_links.py:61 | `og:description`'s content if the tag exists, else empty |
| CrawlInducteeLinks.RaisesForStatus | content/management/commands/crawl_inductee_links.py:48 | `raise_for_status()` raises for the statuses 400 to 599 only; `MetadataFailure` and `ProcessOutcomeSpec` use it |
| CrawlInducteeLinks.MetadataFailure | content/management/commands/crawl_inductee_links.py:45-60 | no exception before the first save exactly when the page came back, its status is not 4xx/5xx, the URL parses and the title is text |
| CrawlInducteeLinks.WithMetadata | content/management/commands/crawl_inductee_links.py:55-61 | the row with the domain, the title cut to 249 characters and the description set, as the first save writes it; `ProcessOutcomeSpec` and `FallbackKeepsMetadata` state what it keeps |
| CrawlInducteeLinks.FallbackRun | content/management/commands/crawl_inductee_links.py:92-94 | the fallback stores the 600x315 screenshot `pageimg_<id>.jpg` and the stamp when the capture succeeds, and changes nothing otherwise; `CaptureScreenshot` is proved against it |
| CrawlInducteeLinks.ImageOutcome | content/management/commands/crawl_inductee_links.py:64-94 | after the metadata save: a 200 answer that decodes stores `preview_<id>.jpg` and stamps; a fetch exception or an undecodable body ends the record; no candidate or another status runs the fallback; `ProcessOutcomeSpec` states these cases |
| CrawlInducteeLinks.ProcessOutcome | content/management/commands/crawl_inductee_links.py:38-99 | the row and the path `process_link` produces; `ProcessOutcomeSpec`, `StoredImagesFitPreviewBox` and `FallbackKeepsMetadata` state its properties |
| CrawlInducteeLinks.ProcessOutcomeSpec | content/management/commands/crawl_inductee_links.py:43-99 | a failed fetch or an error status saves nothing and skips the fallback; the metadata is saved as picked; the fallback runs exactly when there is no `og:image` or its fetch is not 200; the stamp is set exactly on the two storing paths, each with its image; the URL never changes; a stamped record always has an image |
| CrawlInducteeLinks.StoredImagesFitPreviewBox | content/management/commands/crawl_inductee_links.py:75-89 | every image stored fits 600x315, and the `og:image` preview is never larger than its source |
| CrawlInducteeLinks.FallbackKeepsMetadata | content/management/commands/crawl_inductee_links.py:92-94 | after the fallback, domain, title and description are those the first save wrote |
| CrawlInducteeLinks.LightweightExample | content/management/commands/crawl_inductee_links.py:52-90 | og:title "Hello" with a 2000x1000 og:image gives title "Hello", a 600x300 `preview_<id>.jpg`, the stamp, and no fallback |
| CrawlInducteeLinks.OutboundLink.Save | content/management/commands/crawl_inductee_links.py:62 | `save()` writes the instance's fields into its row and no other row |
| CrawlInducteeLinks.CaptureScreenshot | content/management/commands/crawl_inductee_links.py:101-133 | launch and page-opening errors propagate; when opening the page fails, the `finally` close is skipped; later errors are swallowed and the `finally` closes the browser; on success `pageimg_<id>.jpg` is 600x315, stamped and saved; the metadata is never touched |
| CrawlInducteeLinks.ProcessLink | content/management/commands/crawl_inductee_links.py:38-99 | `process_link` leaves the table with the link's row replaced by the row `ProcessOutcome` specifies, and takes the path it specifies |
| CrawlInducteeLinks.SaveMetadata | content/management/commands/crawl_inductee_links.py:43-62 | fails with the exception `MetadataFailure` names and then saves nothing; otherwise it sets domain, title and description and saves the row |
| CrawlInducteeLinks.StoreImage | content/management/commands/crawl_inductee_links.py:64-94 | stores the `og:image` thumbnail or runs the fallback, as `ImageOutcome` specifies |
| CrawlInducteeLinks.Pending | content/management/commands/crawl_inductee_links.py:28 | the queryset holds exactly the links whose `downloaded_datetime` is unset |
| CrawlInducteeLinks.Handle | content/management/commands/crawl_inductee_links.py:25-36 | every pending link is processed exactly once, as `ProcessOutcome` specifies, whatever happens to the others; stamped links are untouched; no row is added or removed |
| CrawlInducteeLinks.RerunSelectsOnlyUnfinished | content/management/commands/crawl_inductee_links.py:28 | a link is selected again on the next run exactly when this run did not store an image for it |
| MagazineModels.AdminDisplayTitle | magazine/models.py:62-66 | the title, extended with " - Volume V, Issue I" exactly when both numbers are set and non-zero |
| MagazineModels.Route | magazine/models.py:68-79 | the issue serves the request exactly when there is one path component and it starts with `page-` |
| MagazineModels.Segments | magazine/models.py:84 | the path bits are non-empty and hold no `/` |
| MagazineModels.RequestedPageNumber | magazine/models.py:85-92 | a segment without `page-` asks for page 1; otherwise it asks for `int()` of the text after its first `-`, or 1 if that does not parse |
| MagazineModels.DefaultPageSegment | magazine/models.py:86-87 | the fallback segment `page-1` contains `page-` and its chunk parses to 1 |
| MagazineModels.PageNumber | magazine/models.py:84-97 | with no path segment it raises IndexError; a requested page that exists is shown; otherwise page 1 is shown if it exists, else DoesNotExist is raised; a shown page always exists |
| MagazineModels.TitleForPage | magazine/models.py:100-102 | the title is kept, and " - Page N" is added exactly when N > 1 |
| MagazineModels.SearchDescription | magazine/models.py:105-108 | the search description: the collapsed text, or beyond 150 characters its first 147 stripped and followed by "..."; `SearchDescriptionFits` pins it |
| MagazineModels.SearchDescriptionFits | magazine/models.py:105-108 | the description is at most 150 characters: the collapsed text when short enough; else the first 146 or 147 characters of the collapsed text, ending in a non-space, with only whitespace dropped between them and position 147, followed by "..." |
| MagazineModels.CollapsedPrefixStrip | magazine/models.py:107 | stripping the first characters of a collapsed text removes nothing at the start and at most one character at the end |
| MagazineModels.CleanDescription | magazine/models.py:105-108 | the `clean_text` steps compute `SearchDescription`, whose value `SearchDescriptionFits` pins |
| MagazineModels.GetFilename | magazine/models.py:208-213 | `get_filename`: `<pk>/<prefix>-<page padded to 2>.jpg` for "L" and "OG", `<pk>/<prefix><page>-<guid>.jpg` otherwise; `IssueDirectory`, `PaddedFilenameIdentifiesPage` and `RenditionsDistinct` state its properties |
| MagazineModels.GetPageLink | magazine/models.py:215-216 | `get_page_link`: the issue URL followed by `page-<n>`; `PageLinkRoundTrip` and `PageSegmentRequestsPage` state what reads it back |
| MagazineModels.RenditionFilename | magazine/models.py:218-236 | the five `get_<rendition>_filename` properties, with prefixes T, S, M, L and OG; `RenditionsDistinct` shows the names differ |
| MagazineModels.BaseUrl | magazine/models.py:238-240 | `get_base_url`: the media URL followed by `magazines/` |
| MagazineModels.RenditionUrl | magazine/models.py:242-260 | the five `get_<rendition>_url` properties: the base URL followed by the rendition's file name; `RenditionsDistinct` shows the URLs differ |
| MagazineModels.PageLinkRoundTrip | magazine/models.py:215-216 | `get_page_link` adds one segment below the issue URL; `route` serves it from the issue; `get_context` reads the same page back when it exists, and page 1 otherwise |
| MagazineModels.PageSegmentRequestsPage | magazine/models.py:216 | the segment `page-<n>` starts with `page-` and asks for page `n` |
| MagazineModels.PaddedPageValue | magazine/models.py:211 | zero-padding the page number keeps the number it denotes |
| MagazineModels.IssueDirectory | magazine/models.py:211-213 | the directory of every rendition name is the issue's primary key |
| MagazineModels.IssueDirectoryInjective | magazine/models.py:211-213 | names in issue directories are equal only for the same issue and the same name |
| MagazineModels.PaddedFilenameIdentifiesPage | magazine/models.py:208-213 | two pages with the same "L" or "OG" name are the same page of the same issue |
| MagazineModels.RenditionsDistinct | magazine/models.py:218-260 | the five renditions of a page have five different file names and five different URLs |
| MagazineModels.IssuePagesAreRows | magazine/models.py:94 | `self.pages.filter(page=n).exists()` holds exactly when the row (issue, n) exists |
| MagazineModels.MagazineIssuePage.GetContext | magazine/models.py:81-117 | returns the page number `PageNumber` specifies; on an exception nothing is assigned; otherwise the title, description, Open Graph image URL and canonical URL are those of the page shown |
| MagazineModels.MagazineIssuePage.ResolvePage | magazine/models.py:84-97 | the page number chosen is the one `PageNumber` specifies, and its row exists |
| MagazineModels.MagazineIssuePage.ParsePageSegment | magazine/models.py:85-92 | the `try: int(...) except ValueError` steps compute the requested page number |
| ProcessMagazinePages.Truncated | magazine/management/commands/process_magazine_pages.py:26-28 | a missing, null or empty value is stored as None; any other value as its first 250 characters |
| ProcessMagazinePages.UpdatedRow | magazine/management/commands/process_magazine_pages.py:25-31 | the row after `update(...)`: the four extracted fields and `ai_data` replaced, text and guid kept; `UpdateOverwrites` states it |
| ProcessMagazinePages.Apply | magazine/management/commands/process_magazine_pages.py:25-31 | one entry updates the row of this issue with its page number if that row exists, and nothing else; `ApplyAllRow` states the effect of the loop |
| ProcessMagazinePages.UpdateOverwrites | magazine/management/commands/process_magazine_pages.py:25-31 | an update replaces every field it writes, so a later entry for the same page wins; the page's text and guid are kept |
| ProcessMagazinePages.ApplyAll | magazine/management/commands/process_magazine_pages.py:16-31 | applying the entries never adds or removes a row |
| ProcessMagazinePages.LastEntryFor | magazine/management/commands/process_magazine_pages.py:25 | finds the last entry naming a page, or shows that none does |
| ProcessMagazinePages.ApplyAllRow | magazine/management/commands/process_magazine_pages.py:16-31 | after the loop, each page of the issue holds the last entry naming it; pages of other issues, and pages no entry names, are untouched |
| ProcessMagazinePages.FirstMissing | magazine/management/commands/process_magazine_pages.py:18 | finds the first entry without `page_number`, where `p["page_number"]` raises, or shows that every entry has one |
| ProcessMagazinePages.AppliedCount | magazine/management/commands/process_magazine_pages.py:16-18 | the entries applied are exactly those before the first one without `page_number`: all of them have one, and the entry at the count, if any, has none |
| ProcessMagazinePages.ProcessData | magazine/management/commands/process_magazine_pages.py:14-35 | the entries before the first one without a page number are applied in order; the issue is stamped with the whole list exactly when there is no such entry, and is otherwise left as it was |
| ProcessMagazinePages.PagesAfter | magazine/management/commands/process_magazine_pages.py:49-107 | handling issues never adds or removes a page row |
| ProcessMagazinePages.PagesOfOtherIssuesUntouched | magazine/management/commands/process_magazine_pages.py:25 | the pages of an issue not handled keep their rows |
| ProcessMagazinePages.PendingPks | magazine/management/commands/process_magazine_pages.py:44-48 | the issues the queryset yields, in order: those among the first `n` whose `ai_processed_datetime` is unset; `PendingPksSelectsUnstamped` states it |
| ProcessMagazinePages.PendingPksSelectsUnstamped | magazine/management/commands/process_magazine_pages.py:44-48 | the queryset selects exactly the issues whose `ai_processed_datetime` is unset |
| ProcessMagazinePages.StampedIssuePagesUntouched | magazine/management/commands/process_magazine_pages.py:44-48 | the pages of an issue already processed are never rewritten by a rerun |
| ProcessMagazinePages.FirstWithoutPdf | magazine/management/commands/process_magazine_pages.py:49-50 | the first pending issue without a PDF, where `download_pdf.file` raises outside the `try`; `FirstWithoutPdfIsFirst` states it |
| ProcessMagazinePages.FirstWithoutPdfIsFirst | magazine/management/commands/process_magazine_pages.py:49-50 | the command stops at a pending issue without a PDF, the first one; every pending issue before it has a PDF |
| ProcessMagazinePages.Handle | magazine/management/commands/process_magazine_pages.py:41-107 | stops exactly at the first pending issue without a PDF; the pages of the pending issues before it are updated in queryset order; each issue is stamped with its entries exactly when it was pending, was reached and its reply went through to the end; every other issue keeps its state |
| ProcessMagazinePages.HandleIssue | magazine/management/commands/process_magazine_pages.py:50-107 | an issue without a PDF raises and changes nothing; a failed extraction is logged and changes nothing; a reply goes through `process_data` |
| ImportMagazinesOgImg.StripTrailingSlashes | magazine/management/commands/import_magazines_og_img.py:19 | `rstrip("/")` gives a prefix that does not end in `/`, and every character removed is a `/` |
| ImportMagazinesOgImg.Basename | magazine/management/commands/import_magazines_og_img.py:20 | `os.path.basename` holds no `/` |
| ImportMagazinesOgImg.Dirname | magazine/management/commands/import_magazines_og_img.py:19 | `os.path.dirname`: the text before the last `/`, its trailing slashes dropped unless that is all there is; `DirnameOfFile` pins it |
| ImportMagazinesOgImg.PathJoin | magazine/management/commands/import_magazines_og_img.py:23 | `os.path.join`: an absolute second part replaces the first; otherwise one `/` goes between them unless the first already ends in one; `OgPathSameDirectory` uses it |
| ImportMagazinesOgImg.OgPath | magazine/management/commands/import_magazines_og_img.py:19-23 | the preview path: the directory joined with the name whose first `L-` became `OG-`; `OgPathSameDirectory` and `OgPathOfOriginal` pin it |
| ImportMagazinesOgImg.DirnameOfFile | magazine/management/commands/import_magazines_og_img.py:19 | the `dirname` of `dir/name` is `dir` |
| ImportMagazinesOgImg.BasenameOfFile | magazine/management/commands/import_magazines_og_img.py:20 | the `basename` of `dir/name` is `name` |
| ImportMagazinesOgImg.OgPathSameDirectory | magazine/management/commands/import_magazines_og_img.py:19-23 | the preview of `dir/L-rest` is `dir/OG-rest`: same directory, only the prefix changed |
| ImportMagazinesOgImg.OgPathOfOriginal | magazine/management/commands/import_magazines_og_img.py:19-23 | the preview the command writes for a page's large image is the file `get_filename("OG")` names for the same page |
| ImportMagazinesOgImg.OutcomeOf | magazine/management/commands/import_magazines_og_img.py:25-52 | one large image: skipped when its preview exists, failed when it is missing, unreadable or resizes to height 0, generated otherwise; `VisitFacts` and `ExistingFilesKept` state the effect |
| ImportMagazinesOgImg.Visit | magazine/management/commands/import_magazines_og_img.py:25-52 | one pass of the loop: a skip changes nothing, a failure adds one failure, a generation writes the preview and adds one to the count; `VisitFacts` states it |
| ImportMagazinesOgImg.RunFrom | magazine/management/commands/import_magazines_og_img.py:18-52 | the loop over the glob's list from a given state; `RunFromAppend` shows that a failure does not stop it |
| ImportMagazinesOgImg.RunAll | magazine/management/commands/import_magazines_og_img.py:17-52 | the loop from an empty count; `ExistingFilesKept`, `NewFilesArePreviews`, `CountIsNewFiles` and `PreviewsPresent` state its properties |
| ImportMagazinesOgImg.RunFromAppend | magazine/management/commands/import_magazines_og_img.py:18-52 | a failure does not stop the loop: the run over `a + b` is the run over `b` continued from where `a` left off |
| ImportMagazinesOgImg.ExistingFilesKept | magazine/management/commands/import_magazines_og_img.py:25-26 | every existing file is kept unchanged: an existing preview is skipped, never overwritten |
| ImportMagazinesOgImg.NewFilesArePreviews | magazine/management/commands/import_magazines_og_img.py:36-44 | every file the run adds is a 1300x630 JPEG at the preview path of one of the large images |
| ImportMagazinesOgImg.CountIsNewFiles | magazine/management/commands/import_magazines_og_img.py:47 | the count is exactly the number of files added; no file disappears; previews and failures together are at most the number of large images |
| ImportMagazinesOgImg.PreviewsPresent | magazine/management/commands/import_magazines_og_img.py:25-47 | after a run without failures every large image has its preview |
| ImportMagazinesOgImg.AllPresentRunsIdle | magazine/management/commands/import_magazines_og_img.py:25-26 | when every preview exists, a run changes nothing and counts nothing |
| ImportMagazinesOgImg.RerunAfterSuccessIsIdle | magazine/management/commands/import_magazines_og_img.py:18-26 | rerunning after a run without failures generates nothing and changes no file |
| ImportMagazinesOgImg.ImportOne | magazine/management/commands/import_magazines_og_img.py:19-52 | one pass: skip when the preview exists; fail on a missing or unreadable image or an empty resize; otherwise write the 1300x630 preview |
| ImportMagazinesOgImg.Handle | magazine/management/commands/import_magazines_og_img.py:12-56 | the files and the count after the loop are those `RunAll` specifies |

## Left out

- HTTP requests, HTML parsing, `urljoin`, Pillow's pixels and JPEG encoding, and Playwright are not modelled. Their results are inputs: a `Scenario`, or an image size.
- Console and error output (`stdout`, `stderr`, `print`) are not modelled. Their only effect is the text written.
- Timestamps (`timezone.now()`) are modelled as flags: set or unset.
- Saves to the database and writes of media files are modelled as always succeeding.
- The extraction service, the PDF upload, the JSON file written to `documents-json/` and `time.sleep(4)` are not modelled. The service's answer is a `Reply`. JSON values are taken to be strings or null, and `page_number` an integer, null or absent.
- Queryset order: the order of issues from `order_by("-date")` is the order of the `issues` sequence given to `ProcessMagazinePages.Handle`. The order of `glob` results is the order of the `sources` sequence given to `ImportMagazinesOgImg.Handle`. The link command's queryset has no order, so its loop takes the ids in any order.
- `super().get_context`, `super().route` beyond its result, `get_graph_image_url`, `get_sitemap_urls`, the admin panels, `MagazineListPage`, `MagazineSearchPage` and `magazine/forms.py` are not modelled: they are Wagtail, ORM or search plumbing outside the core.
- Text.ParseInt: accepts only an optional sign followed by ASCII digits. Python's `int()` also accepts surrounding whitespace, underscores between digits and non-ASCII digits; page segments built by `get_page_link` never contain those.
- CrawlInducteeLinks.Netloc: models `urlsplit`'s scheme, `//` and delimiter rules and its check for a lone `[` or `]`. It does not model the check, added in Python 3.11.4, that a bracketed host is a valid IPv6 or IPvFuture address: `urlparse("http://[example.com]/")` raises ValueError, while the model returns `Ok("[example.com]")`. It does not model the check that rejects a non-ASCII netloc whose NFKC normalisation adds a `/`, `?`, `#`, `@` or `:`.
- Imaging.Thumbnail: uses exact integer arithmetic where Pillow uses floats. The two can choose differently only where a float rounding error decides between floor and ceiling.
- ImportMagazinesOgImg.ResizedHeight: computes `h * 1300 / w` exactly, rounded down. The source's `int(h * (1300 / w))` in floats can differ by one for some sizes; only whether the height is 0 matters to the model.
- ImportMagazinesOgImg.OutcomeOf: treats a resize to height 0 as the only resize error. Any error raised while opening, resizing, cropping or saving is one `Failed` outcome, as the source's `except Exception` makes it.
- CrawlInducteeLinks.CaptureScreenshot: does not model `goto`'s 30-second timeout or the 2-second wait. Either one raising counts as a navigation failure.
- CrawlInducteeLinks.CaptureScreenshot: does not model the exit of `async with async_playwright()`, which stops the driver and with it a browser whose `finally` close was skipped. `Teardown.closeSkipped` records only that the explicit `browser.close()` did not run.
- CrawlInducteeLinks.StoredImage: records the file name the code asks for, `preview_<id>.jpg` or `pageimg_<id>.jpg`. Django's `FieldFile.save` passes that name through the field's `upload_to` and the storage's `get_available_name`, which can add a directory or a random suffix when the name is taken; neither is modelled.
