/**
 * Page assembly in `upload_to_notion` (main.py:136-168): empty content is
 * replaced by a placeholder, the content is chunked, and every chunk becomes
 * one page titled "{title} - Part {n}" whose children are that chunk's blocks.
 * Each page-creation call may fail on its own without stopping the others.
 */
module Upload {
  import opened PyStrings
  import opened Chunker
  import opened Blocks

  /** The placeholder uploaded instead of empty content. */
  const DefaultContent: string := "No content available"

  /** One page-creation request: the parent database, the title and the blocks. */
  datatype Page = Page(databaseId: string, title: string, children: seq<Block>)

  /** What the uploader reports for one chunk: created with this title, or failed. */
  datatype Report = Created(title: string) | Failed

  /** `f"{title} - Part {idx + 1}"`. */
  function PartTitle(title: string, idx: nat): string
  {
    title + " - Part " + NatToString(idx + 1)
  }

  /** The content actually chunked: the placeholder when the content is empty. */
  function PageBody(content: string): (body: string)
    ensures body != []
    ensures content != [] ==> body == content
  {
    if content == "" then DefaultContent else content
  }

  /** The page for chunk `idx`: part `idx + 1`, holding the chunk's blocks. */
  function PartPage(databaseId: string, title: string, chunk: string, idx: nat): Page
  {
    Page(databaseId, PartTitle(title, idx), BlocksOf(chunk))
  }

  /** One page per chunk, in order: page `i` is part `i + 1` and holds the blocks of chunk `i`. */
  function PagesOf(databaseId: string, title: string, chunks: seq<string>): (pages: seq<Page>)
    ensures |pages| == |chunks|
    decreases |chunks|
  {
    if chunks == [] then []
    else
      var n := |chunks| - 1;
      PagesOf(databaseId, title, chunks[..n]) + [PartPage(databaseId, title, chunks[n], n)]
  }

  /** The pages `upload_to_notion(title, content)` asks to create. */
  function PlannedPages(databaseId: string, title: string, content: string): seq<Page>
  {
    PagesOf(databaseId, title, SplitText(PageBody(content), DefaultMaxLength))
  }

  /** Page `i` of the pages of `chunks` is part `i + 1`, holding the blocks of chunk `i`. */
  lemma {:induction false} PagesOfAt(databaseId: string, title: string, chunks: seq<string>, i: nat)
    requires i < |chunks|
    ensures PagesOf(databaseId, title, chunks)[i] == PartPage(databaseId, title, chunks[i], i)
    decreases |chunks|
  {
    var n := |chunks| - 1;
    var init := PagesOf(databaseId, title, chunks[..n]);
    assert PagesOf(databaseId, title, chunks) == init + [PartPage(databaseId, title, chunks[n], n)];
    if i < n {
      PagesOfAt(databaseId, title, chunks[..n], i);
      assert chunks[..n][i] == chunks[i];
    }
  }

  /** Taking one more chunk adds its page at the end. */
  lemma PagesOfStep(databaseId: string, title: string, chunks: seq<string>, idx: nat)
    requires idx < |chunks|
    ensures PagesOf(databaseId, title, chunks[..idx + 1]) ==
      PagesOf(databaseId, title, chunks[..idx]) + [PartPage(databaseId, title, chunks[idx], idx)]
  {
    assert chunks[..idx + 1][..idx] == chunks[..idx];
  }

  /** After the last chunk, the pages made are the planned pages. */
  lemma AllPagesPlanned(databaseId: string, title: string, content: string, pages: seq<Page>)
    requires var chunks := SplitText(PageBody(content), DefaultMaxLength);
      pages == PagesOf(databaseId, title, chunks[..|chunks|])
    ensures pages == PlannedPages(databaseId, title, content)
  {
    var chunks := SplitText(PageBody(content), DefaultMaxLength);
    assert chunks[..|chunks|] == chunks;
  }

  /** `report` is about `page`: a created report carries the page's title. */
  predicate Reports(report: Report, page: Page)
  {
    report.Created? ==> report.title == page.title
  }

  /** Each report is about the page at the same position. */
  predicate ReportsAll(reports: seq<Report>, pages: seq<Page>)
  {
    |reports| == |pages| && forall i :: 0 <= i < |reports| ==> Reports(reports[i], pages[i])
  }

  lemma ReportsAllStep(reports: seq<Report>, pages: seq<Page>, report: Report, page: Page)
    requires ReportsAll(reports, pages) && Reports(report, page)
    ensures ReportsAll(reports + [report], pages + [page])
  {
  }

  /** The pages among `pages` whose report says they were created, in order. */
  function CreatedPages(pages: seq<Page>, reports: seq<Report>): seq<Page>
    requires |pages| == |reports|
    decreases |pages|
  {
    if pages == [] then []
    else
      var n := |pages| - 1;
      CreatedPages(pages[..n], reports[..n]) + (if reports[n].Created? then [pages[n]] else [])
  }

  /** Page `i` of an upload: part `i + 1`, holding the blocks of chunk `i`. */
  lemma PlannedPageAt(databaseId: string, title: string, content: string, i: nat)
    requires i < |SplitText(PageBody(content), DefaultMaxLength)|
    ensures PlannedPages(databaseId, title, content)[i] ==
      Page(databaseId, PartTitle(title, i), BlocksOf(SplitText(PageBody(content), DefaultMaxLength)[i]))
  {
    PagesOfAt(databaseId, title, SplitText(PageBody(content), DefaultMaxLength), i);
  }

  /** Titles that differ in their part number differ. */
  lemma PartTitleInjective(title: string, i: nat, j: nat)
    requires PartTitle(title, i) == PartTitle(title, j)
    ensures i == j
  {
    var prefix := title + " - Part ";
    assert PartTitle(title, i)[|prefix|..] == NatToString(i + 1);
    assert PartTitle(title, j)[|prefix|..] == NatToString(j + 1);
    NatToStringInjective(i + 1, j + 1);
  }

  /**
   * There is at least one page and one page per chunk of the (defaulted) content;
   * page `i` is titled with part number `i + 1`, holds the blocks of chunk `i`, and
   * the chunks joined give back the content.
   */
  lemma PlannedPagesShape(databaseId: string, title: string, content: string)
    ensures var pages, chunks := PlannedPages(databaseId, title, content),
                                 SplitText(PageBody(content), DefaultMaxLength);
      |pages| == |chunks| >= 1 &&
      |pages| == (|PageBody(content)| + DefaultMaxLength - 1) / DefaultMaxLength &&
      Concat(chunks) == PageBody(content) &&
      forall i :: 0 <= i < |pages| ==>
        pages[i] == Page(databaseId, title + " - Part " + NatToString(i + 1), BlocksOf(chunks[i]))
  {
    SplitTextShape(PageBody(content), DefaultMaxLength);
    SplitTextRoundTrip(PageBody(content), DefaultMaxLength);
    forall i | 0 <= i < |PlannedPages(databaseId, title, content)| {
      PlannedPageAt(databaseId, title, content, i);
    }
  }

  /** No two pages of one upload share a title. */
  lemma PlannedTitlesDistinct(databaseId: string, title: string, content: string, i: nat, j: nat)
    requires var pages := PlannedPages(databaseId, title, content); i < |pages| && j < |pages| && i != j
    ensures PlannedPages(databaseId, title, content)[i].title != PlannedPages(databaseId, title, content)[j].title
  {
    PlannedPageAt(databaseId, title, content, i);
    PlannedPageAt(databaseId, title, content, j);
    if PartTitle(title, i) == PartTitle(title, j) {
      PartTitleInjective(title, i, j);
    }
  }

  /** Content of at most 2000 characters is uploaded as the single page "Part 1". */
  lemma ShortContentOnePage(databaseId: string, title: string, content: string)
    requires 0 < |content| <= DefaultMaxLength
    ensures PlannedPages(databaseId, title, content) ==
      [Page(databaseId, title + " - Part 1", BlocksOf(content))]
  {
    ShortTextOneChunk(content, DefaultMaxLength);
    PlannedPageAt(databaseId, title, content, 0);
    assert NatToString(1) == "1";
    assert PartTitle(title, 0) == title + " - Part 1";
  }

  /** The placeholder text is a single paragraph. */
  lemma PlaceholderParagraph()
    ensures BlocksOf(DefaultContent) == [Para(DefaultContent)]
  {
    SingleParaLine(DefaultContent);
  }

  /** Empty content becomes one page holding the placeholder paragraph. */
  lemma EmptyContentPage(databaseId: string, title: string)
    ensures PlannedPages(databaseId, title, "") ==
      [Page(databaseId, title + " - Part 1", [Para(DefaultContent)])]
  {
    PlaceholderParagraph();
    ShortContentOnePage(databaseId, title, DefaultContent);
  }

  /** The page title `main` passes for a video: `f"Translation of {video_id}"` (main.py:183). */
  function UploadTitle(videoId: string): string
  {
    "Translation of " + videoId
  }

  /** Two blocks rendered on consecutive lines, short enough for one chunk, make one page. */
  lemma TwoLinePage(databaseId: string, title: string, x: Block, y: Block)
    requires !x.Para? && !y.Para?
    requires forall k :: 0 <= k < |x.text| ==> x.text[k] != '\n'
    requires forall k :: 0 <= k < |y.text| ==> y.text[k] != '\n'
    requires |Render(x) + "\n" + Render(y)| <= DefaultMaxLength
    ensures PlannedPages(databaseId, title, Render(x) + "\n" + Render(y)) ==
      [Page(databaseId, title + " - Part 1", [x, y])]
  {
    ShortContentOnePage(databaseId, title, Render(x) + "\n" + Render(y));
    TwoBlockLines(x, y);
  }

  /**
   * A translation of a heading line and a bullet line is uploaded as
   * one page "Translation of {id} - Part 1" holding a heading and a bullet.
   */
  lemma EndToEndExample(databaseId: string, videoId: string)
    ensures PlannedPages(databaseId, UploadTitle(videoId), "# Title" + "\n" + "- point one") ==
      [Page(databaseId, UploadTitle(videoId) + " - Part 1", [H1("Title"), Bullet("point one")])]
  {
    TwoLineExample();
    ShortContentOnePage(databaseId, UploadTitle(videoId), "# Title" + "\n" + "- point one");
  }

  /** The page store behind `notion.pages.create`: each call may succeed or fail. */
  class NotionPages {
    /** Every page a creation call was made for, in call order, whatever its outcome. */
    ghost var requests: seq<Page>
    /** The pages created so far, in order. */
    var created: seq<Page>

    constructor ()
      ensures requests == [] && created == []
    {
      requests := [];
      created := [];
    }

    /** One creation call; its outcome is not determined by anything the model sees. */
    method Create(page: Page) returns (ok: bool)
      modifies this
      ensures requests == old(requests) + [page]
      ensures created == if ok then old(created) + [page] else old(created)
    {
      requests := requests + [page];
      ok := *;
      if ok {
        created := created + [page];
      }
    }
  }

  /** Recording one more outcome extends the created pages by that page exactly when it was created. */
  lemma CreatedPagesStep(before: seq<Page>, pages: seq<Page>, reports: seq<Report>, page: Page, report: Report)
    requires |pages| == |reports|
    ensures before + CreatedPages(pages + [page], reports + [report]) ==
      (before + CreatedPages(pages, reports)) + (if report.Created? then [page] else [])
  {
    assert (pages + [page])[..|pages|] == pages;
    assert (reports + [report])[..|reports|] == reports;
  }

  /**
   * One iteration of the upload loop: chunk `idx` becomes part `idx + 1`, whose
   * creation either adds exactly that page to the store or leaves it unchanged.
   */
  method UploadPart(databaseId: string, title: string, chunk: string, idx: nat, notion: NotionPages)
    returns (page: Page, report: Report)
    modifies notion
    ensures page == PartPage(databaseId, title, chunk, idx)
    ensures Reports(report, page)
    ensures notion.requests == old(notion.requests) + [page]
    ensures notion.created == old(notion.created) + (if report.Created? then [page] else [])
  {
    var blocks := MarkdownToBlocks(chunk);
    page := Page(databaseId, PartTitle(title, idx), blocks);
    var ok := notion.Create(page);
    report := if ok then Created(page.title) else Failed;
  }

  /**
   * `upload_to_notion`: one creation call per planned page, in order, whatever
   * the earlier calls' outcomes, each reported on its own; the store gains
   * exactly the pages that were created.
   */
  method UploadToNotion(databaseId: string, title: string, content: string, notion: NotionPages)
    returns (reports: seq<Report>)
    modifies notion
    ensures notion.requests == old(notion.requests) + PlannedPages(databaseId, title, content)
    ensures ReportsAll(reports, PlannedPages(databaseId, title, content))
    ensures notion.created ==
      old(notion.created) + CreatedPages(PlannedPages(databaseId, title, content), reports)
  {
    var body := PageBody(content);
    var chunks := SplitText(body, DefaultMaxLength);
    ghost var pages: seq<Page> := [];
    reports := [];
    for idx := 0 to |chunks|
      invariant |reports| == |pages| == idx
      invariant pages == PagesOf(databaseId, title, chunks[..idx])
      invariant ReportsAll(reports, pages)
      invariant notion.requests == old(notion.requests) + pages
      invariant notion.created == old(notion.created) + CreatedPages(pages, reports)
    {
      var page, report := UploadPart(databaseId, title, chunks[idx], idx, notion);
      CreatedPagesStep(old(notion.created), pages, reports, page, report);
      assert old(notion.requests) + (pages + [page]) == (old(notion.requests) + pages) + [page];
      ReportsAllStep(reports, pages, report, page);
      PagesOfStep(databaseId, title, chunks, idx);
      pages := pages + [page];
      reports := reports + [report];
    }
    AllPagesPlanned(databaseId, title, content, pages);
  }

  /**
   * The two-line example uploaded under the title `main` passes: exactly one
   * creation call is made, for part 1 holding a heading and a bullet.
   */
  method EndToEndUpload(databaseId: string, videoId: string, notion: NotionPages) returns (reports: seq<Report>)
    modifies notion
    ensures notion.requests == old(notion.requests) +
      [Page(databaseId, UploadTitle(videoId) + " - Part 1", [H1("Title"), Bullet("point one")])]
    ensures |reports| == 1
  {
    reports := UploadToNotion(databaseId, UploadTitle(videoId), "# Title" + "\n" + "- point one", notion);
    EndToEndExample(databaseId, videoId);
  }
}
