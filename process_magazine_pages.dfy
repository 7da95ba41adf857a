/**
 * The `process_magazine_pages` management command, after the extraction
 * service has answered: `process_data` writes each extracted entry into the
 * `MagazinePage` row of its page, then marks the issue processed; `handle`
 * runs it for every issue not yet processed.
 *
 * The extraction service, the PDF upload, the JSON file and the pause
 * between issues are not modelled: what the service returned for an issue
 * is given as a `Reply`.
 */
module ProcessMagazinePages {
  import opened Wrappers
  import opened Text
  import opened MagazineModels

  const FieldLimit: nat := 250

  /** `p[key][:250] if p.get(key) else None`: a missing, null or empty value becomes None. */
  function Truncated(v: Option<string>): (r: Option<string>)
    ensures r.Some? <==> v.Some? && v.value != ""
    ensures r.Some? ==> StartsWith(v.value, r.value) && |r.value| == if |v.value| <= FieldLimit then |v.value| else FieldLimit
  {
    if v.Some? && v.value != "" then Some(Take(v.value, FieldLimit)) else None
  }

  /** The row after `update(...)` with entry `e`: the extracted fields are replaced, text and guid kept. */
  function UpdatedRow(row: PageRow, e: PageMetadata): PageRow {
    row.(aiPageTitle := Truncated(e.pageTitle),
         aiStoryTitle := Truncated(e.storyTitle),
         aiStoryAuthor := Truncated(e.storyAuthor),
         aiStorySummary := e.storyTeaser,
         aiData := Some(e))
  }

  /** An update replaces every field it writes: only the later entry shows. */
  lemma UpdateOverwrites(row: PageRow, e1: PageMetadata, e2: PageMetadata)
    ensures UpdatedRow(UpdatedRow(row, e1), e2) == UpdatedRow(row, e2)
    ensures UpdatedRow(row, e1).text == row.text && UpdatedRow(row, e1).guid == row.guid
  {
  }

  /**
   * The row `filter(issue=magazine, page=...)` selects for an entry, if its
   * page number is an integer; a null or negative number matches no row.
   */
  predicate Targets(e: PageMetadata, page: nat) {
    e.pageNumber == Number(page)
  }

  /** One entry applied to the table: the row of issue `pk` it targets is updated, if it exists. */
  function Apply(rows: map<PageKey, PageRow>, pk: nat, e: PageMetadata): map<PageKey, PageRow> {
    if e.pageNumber.Number? && e.pageNumber.value >= 0 && PageKey(pk, e.pageNumber.value) in rows then
      var k := PageKey(pk, e.pageNumber.value);
      rows[k := UpdatedRow(rows[k], e)]
    else
      rows
  }

  /** The entries applied one after the other, in list order. */
  function ApplyAll(rows: map<PageKey, PageRow>, pk: nat, data: seq<PageMetadata>): (r: map<PageKey, PageRow>)
    ensures r.Keys == rows.Keys
    decreases |data|
  {
    if data == [] then rows
    else Apply(ApplyAll(rows, pk, data[..|data| - 1]), pk, data[|data| - 1])
  }

  /** The position of the last entry for `page`, if any. */
  function LastEntryFor(data: seq<PageMetadata>, page: nat): (r: Option<nat>)
    ensures r.Some? ==> r.value < |data| && Targets(data[r.value], page)
    ensures r.Some? ==> forall j :: r.value < j < |data| ==> !Targets(data[j], page)
    ensures r.None? ==> forall j :: 0 <= j < |data| ==> !Targets(data[j], page)
    decreases |data|
  {
    if data == [] then None
    else if Targets(data[|data| - 1], page) then Some(|data| - 1)
    else LastEntryFor(data[..|data| - 1], page)
  }

  /**
   * The row of each page after all entries: a row of issue `pk` with an
   * entry for its page number is the last such entry applied to it; every
   * other row (another issue, a page no entry names) is untouched.
   */
  lemma {:induction false} ApplyAllRow(rows: map<PageKey, PageRow>, pk: nat, data: seq<PageMetadata>, k: PageKey)
    requires k in rows
    ensures k in ApplyAll(rows, pk, data)
    ensures ApplyAll(rows, pk, data)[k] ==
              if k.issue == pk && LastEntryFor(data, k.page).Some?
              then UpdatedRow(rows[k], data[LastEntryFor(data, k.page).value])
              else rows[k]
    decreases |data|
  {
    if data != [] {
      var init := data[..|data| - 1];
      var e := data[|data| - 1];
      ApplyAllRow(rows, pk, init, k);
      var before := ApplyAll(rows, pk, init);
      if k.issue == pk && Targets(e, k.page) {
        UpdateOverwrites(rows[k], if LastEntryFor(init, k.page).Some? then init[LastEntryFor(init, k.page).value] else e, e);
      } else if k.issue == pk && LastEntryFor(init, k.page).Some? {
        assert data[LastEntryFor(init, k.page).value] == init[LastEntryFor(init, k.page).value];
      }
    }
  }

  /** The first entry without a `page_number` key, where `p["page_number"]` raises KeyError. */
  function FirstMissing(data: seq<PageMetadata>): (r: Option<nat>)
    ensures r.Some? ==> r.value < |data| && data[r.value].pageNumber.Missing?
    ensures r.Some? ==> forall j :: 0 <= j < r.value ==> !data[j].pageNumber.Missing?
    ensures r.None? ==> forall j :: 0 <= j < |data| ==> !data[j].pageNumber.Missing?
    decreases |data|
  {
    if data == [] then None
    else if data[0].pageNumber.Missing? then Some(0)
    else match FirstMissing(data[1..])
      case Some(k) => Some(k + 1)
      case None => None
  }

  /** How many entries `process_data` applies: those before the first one without a page number. */
  function AppliedCount(data: seq<PageMetadata>): (n: nat)
    ensures n <= |data|
    ensures forall j :: 0 <= j < n ==> !data[j].pageNumber.Missing?
    ensures n < |data| ==> data[n].pageNumber.Missing?
  {
    match FirstMissing(data)
    case Some(k) => k
    case None => |data|
  }

  /**
   * `process_data`: apply each entry to the page of its number, then store
   * the whole list on the issue and stamp it. An entry without a page
   * number raises: the pages updated before it stay updated, the issue is
   * left pending. Returns whether it ran to the end.
   */
  method ProcessData(magazine: MagazineIssuePage, pages: PageTable, data: seq<PageMetadata>) returns (ok: bool)
    modifies pages, magazine`aiData, magazine`aiProcessed
    ensures ok <==> FirstMissing(data).None?
    ensures pages.rows == ApplyAll(old(pages.rows), magazine.pk, data[..AppliedCount(data)])
    ensures ok ==> magazine.aiData == Some(data) && magazine.aiProcessed
    ensures !ok ==> magazine.aiData == old(magazine.aiData) && magazine.aiProcessed == old(magazine.aiProcessed)
  {
    var i := 0;
    while i < |data|
      invariant 0 <= i <= |data|
      invariant forall j :: 0 <= j < i ==> !data[j].pageNumber.Missing?
      invariant pages.rows == ApplyAll(old(pages.rows), magazine.pk, data[..i])
      invariant magazine.aiData == old(magazine.aiData) && magazine.aiProcessed == old(magazine.aiProcessed)
    {
      var p := data[i];
      if p.pageNumber.Missing? {
        assert FirstMissing(data) == Some(i);
        return false;
      }
      assert data[..i + 1][..i] == data[..i];
      match p.pageNumber {
        case Null =>
        case Number(n) =>
          if n >= 0 && PageKey(magazine.pk, n) in pages.rows {
            var k := PageKey(magazine.pk, n);
            pages.rows := pages.rows[k := UpdatedRow(pages.rows[k], p)];
          }
      }
      i := i + 1;
    }
    assert data[..|data|] == data;
    magazine.aiData := Some(data);
    magazine.aiProcessed := true;
    return true;
  }

  // ---------------------------------------------------------------------
  // handle: every issue not yet processed
  // ---------------------------------------------------------------------

  /** What the extraction service gave for an issue: an exception, or the parsed entry list. */
  datatype Reply = ExtractionFailed | Extracted(data: seq<PageMetadata>)

  /** The issue is stamped: the reply parsed and every entry had a page number. */
  predicate Completes(reply: Reply) {
    reply.Extracted? && FirstMissing(reply.data).None?
  }

  /** The page table after `process_data` (if reached) for issue `pk`. */
  function IssuePagesAfter(rows: map<PageKey, PageRow>, pk: nat, reply: Reply): map<PageKey, PageRow> {
    match reply
    case ExtractionFailed => rows
    case Extracted(data) => ApplyAll(rows, pk, data[..AppliedCount(data)])
  }

  /** The page table after the issues `pks` are handled in order. */
  function PagesAfter(rows: map<PageKey, PageRow>, pks: seq<nat>, replies: nat -> Reply): (r: map<PageKey, PageRow>)
    ensures r.Keys == rows.Keys
    decreases |pks|
  {
    if pks == [] then rows
    else
      var last := pks[|pks| - 1];
      IssuePagesAfter(PagesAfter(rows, pks[..|pks| - 1], replies), last, replies(last))
  }

  lemma PagesAfterSnoc(rows: map<PageKey, PageRow>, pks: seq<nat>, pk: nat, replies: nat -> Reply)
    ensures PagesAfter(rows, pks + [pk], replies) == IssuePagesAfter(PagesAfter(rows, pks, replies), pk, replies(pk))
  {
    assert (pks + [pk])[..|pks|] == pks;
  }

  /** Handling issues never changes the pages of any other issue. */
  lemma {:induction false} PagesOfOtherIssuesUntouched(rows: map<PageKey, PageRow>, pks: seq<nat>, replies: nat -> Reply, k: PageKey)
    requires k in rows && k.issue !in pks
    ensures PagesAfter(rows, pks, replies)[k] == rows[k]
    decreases |pks|
  {
    if pks != [] {
      var init := pks[..|pks| - 1];
      var last := pks[|pks| - 1];
      assert k.issue !in init;
      PagesOfOtherIssuesUntouched(rows, init, replies, k);
      var before := PagesAfter(rows, init, replies);
      match replies(last) {
        case ExtractionFailed =>
        case Extracted(data) =>
          ApplyAllRow(before, last, data[..AppliedCount(data)], k);
      }
    }
  }

  /** The pks of the issues among the first `n` that `magazine_qs` selects (not yet stamped), in order. */
  function PendingPks(issues: seq<MagazineIssuePage>, n: nat): (pks: seq<nat>)
    requires n <= |issues|
    reads issues
    decreases n
  {
    if n == 0 then []
    else PendingPks(issues, n - 1) + (if issues[n - 1].aiProcessed then [] else [issues[n - 1].pk])
  }

  /**
   * An issue already stamped is not selected again: however the run goes,
   * the pages of a stamped issue keep their rows.
   */
  lemma StampedIssuePagesUntouched(rows: map<PageKey, PageRow>, issues: seq<MagazineIssuePage>, n: nat, replies: nat -> Reply, idx: nat, k: PageKey)
    requires n <= |issues| && DistinctPks(issues)
    requires idx < |issues| && issues[idx].aiProcessed
    requires k in rows && k.issue == issues[idx].pk
    ensures PagesAfter(rows, PendingPks(issues, n), replies)[k] == rows[k]
  {
    PendingPksSelectsUnstamped(issues, n, k.issue);
    forall i | 0 <= i < n && issues[i].pk == k.issue
      ensures i == idx
    {
    }
    PagesOfOtherIssuesUntouched(rows, PendingPks(issues, n), replies, k);
  }

  /** The pks selected among the first `n` issues are exactly those of the issues not yet stamped. */
  lemma {:induction false} PendingPksSelectsUnstamped(issues: seq<MagazineIssuePage>, n: nat, p: nat)
    requires n <= |issues|
    ensures p in PendingPks(issues, n) <==> exists i :: 0 <= i < n && issues[i].pk == p && !issues[i].aiProcessed
    decreases n
  {
    if n > 0 {
      PendingPksSelectsUnstamped(issues, n - 1, p);
      if issues[n - 1].pk == p && !issues[n - 1].aiProcessed {
        assert p in PendingPks(issues, n);
      }
    }
  }

  /** Where `handle` stops: the first pending issue without a PDF, whose `download_pdf.file` raises outside the `try`. */
  function FirstWithoutPdf(issues: seq<MagazineIssuePage>, from: nat): (r: Option<nat>)
    requires from <= |issues|
    reads issues
    decreases |issues| - from
  {
    if from == |issues| then None
    else if !issues[from].aiProcessed && issues[from].downloadPdf.None? then Some(from)
    else FirstWithoutPdf(issues, from + 1)
  }

  /**
   * `handle` stops at a pending issue without a PDF, and at the first one:
   * every pending issue before it has a PDF; with no stop, all of them do.
   */
  lemma {:induction false} FirstWithoutPdfIsFirst(issues: seq<MagazineIssuePage>, from: nat)
    requires from <= |issues|
    ensures var r := FirstWithoutPdf(issues, from);
            && (r.Some? ==> from <= r.value < |issues| && !issues[r.value].aiProcessed && issues[r.value].downloadPdf.None?)
            && (r.Some? ==> forall j :: from <= j < r.value ==> issues[j].aiProcessed || issues[j].downloadPdf.Some?)
            && (r.None? ==> forall j :: from <= j < |issues| ==> issues[j].aiProcessed || issues[j].downloadPdf.Some?)
    decreases |issues| - from
  {
    if from < |issues| {
      FirstWithoutPdfIsFirst(issues, from + 1);
    }
  }

  /** The issues are rows of one table: their primary keys differ. */
  ghost predicate DistinctPks(issues: seq<MagazineIssuePage>)
    reads issues
  {
    forall i, j :: 0 <= i < j < |issues| ==> issues[i].pk != issues[j].pk
  }

  /**
   * The state of an issue after `handle`: stamped with its entry list if
   * it was pending, the loop `reached` it and its reply went through
   * `process_data` to the end; otherwise as before.
   */
  ghost predicate Handled(m: MagazineIssuePage, wasProcessed: bool, dataBefore: Option<seq<PageMetadata>>, reached: bool, replies: nat -> Reply)
    reads m
  {
    var stamped := !wasProcessed && reached && Completes(replies(m.pk));
    && m.aiProcessed == (wasProcessed || stamped)
    && m.aiData == (if stamped then Some(replies(m.pk).data) else dataBefore)
  }

  /**
   * `handle`: for each issue not yet stamped, in queryset order, send its
   * PDF to the extraction service and run `process_data` on the reply;
   * an exception inside the `try` is logged and the loop goes on. An issue
   * without a PDF raises before the `try` and ends the command. Returns the
   * position of that issue, if the command ended there.
   */
  method Handle(issues: seq<MagazineIssuePage>, pages: PageTable, replies: nat -> Reply) returns (crashedAt: Option<nat>)
    requires DistinctPks(issues)
    modifies pages, issues`aiData, issues`aiProcessed
    ensures crashedAt == old(FirstWithoutPdf(issues, 0))
    ensures crashedAt.Some? ==> crashedAt.value < |issues|
    ensures var stop := if crashedAt.Some? then crashedAt.value else |issues|;
            pages.rows == PagesAfter(old(pages.rows), old(PendingPks(issues, stop)), replies)
    ensures forall k :: 0 <= k < |issues| ==>
              Handled(issues[k], old(issues[k].aiProcessed), old(issues[k].aiData), crashedAt.None? || k < crashedAt.value, replies)
  {
    var i: nat := 0;
    while i < |issues|
      invariant i <= |issues|
      invariant old(FirstWithoutPdf(issues, 0)) == old(FirstWithoutPdf(issues, i))
      invariant pages.rows == PagesAfter(old(pages.rows), old(PendingPks(issues, i)), replies)
      invariant forall k :: 0 <= k < |issues| ==>
                  Handled(issues[k], old(issues[k].aiProcessed), old(issues[k].aiData), k < i, replies)
    {
      ghost var pending := old(PendingPks(issues, i));
      assert forall k :: 0 <= k < |issues| && k != i ==> issues[k] != issues[i];
      if !issues[i].aiProcessed {
        assert old(PendingPks(issues, i + 1)) == pending + [issues[i].pk];
        ghost var before := pages.rows;
        var crashed := HandleIssue(issues[i], pages, replies);
        if crashed {
          return Some(i);
        }
        PagesAfterSnoc(old(pages.rows), pending, issues[i].pk, replies);
        assert pages.rows == IssuePagesAfter(before, issues[i].pk, replies(issues[i].pk));
      } else {
        assert old(PendingPks(issues, i + 1)) == pending;
      }
      i := i + 1;
    }
    return None;
  }

  /**
   * One pass of `handle`'s loop: an issue without a PDF raises (`crashed`);
   * otherwise a failed extraction leaves everything as it was and a reply
   * goes through `process_data`.
   */
  method HandleIssue(magazine: MagazineIssuePage, pages: PageTable, replies: nat -> Reply) returns (crashed: bool)
    requires !magazine.aiProcessed
    modifies pages, magazine`aiData, magazine`aiProcessed
    ensures crashed <==> magazine.downloadPdf.None?
    ensures pages.rows == if crashed then old(pages.rows) else IssuePagesAfter(old(pages.rows), magazine.pk, replies(magazine.pk))
    ensures Handled(magazine, false, old(magazine.aiData), !crashed, replies)
  {
    if magazine.downloadPdf.None? {
      return true;
    }
    match replies(magazine.pk) {
      case ExtractionFailed =>
      case Extracted(data) =>
        var _ := ProcessData(magazine, pages, data);
    }
    return false;
  }

}
