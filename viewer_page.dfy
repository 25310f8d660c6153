/** The viewer page's session state (`front/src/app/pages/ViewerPage.tsx`):
    which page is shown, which chunk is highlighted, the pages of the loaded
    document, the loading flag and the last error; the values derived from
    them; and the handlers that change them. */
module ViewerPage {
  import opened Wrappers
  import opened JsNumber
  import opened Text
  import opened Markup
  import opened PageBuilder
  import IntSets

  /** What the viewer keeps of a page view model. */
  datatype PageData = PageData(chunks: seq<Chunk>, htmlContent: string)

  /** Shown when the current page has no markup. */
  const EmptyPageHtml: string := "<p>이 페이지에는 내용이 없습니다.</p>"

  /** Shown as the markdown preview when the current page has no chunks. */
  const EmptyMarkdown: string := "# 마크다운 미리보기\n\n- 청크 없음"

  /** Shown as the error when a failed load carries no message. */
  const DefaultLoadError: string := "문서를 불러오지 못했습니다."

  ghost predicate IsLeast(x: int, s: set<int>) {
    x in s && forall k :: k in s ==> x <= k
  }

  /** `maxPage`: the largest page key, or 1 when there are none; not clamped
      to be at least 1. */
  function MaxPage(pageDataByPage: map<int, PageData>): (m: int)
    ensures pageDataByPage == map[] ==> m == 1
    ensures pageDataByPage != map[] ==> m in pageDataByPage && forall p :: p in pageDataByPage ==> p <= m
  {
    if pageDataByPage.Keys == {} then 1 else IntSets.Max(pageDataByPage.Keys)
  }

  /** `firstPage || 1` where `firstPage` is the smallest key: a smallest
      key of 0 is falsy and gives page 1 as well. */
  function FirstPageAfterLoad(keys: set<int>): (r: int)
    ensures keys == {} || IsLeast(0, keys) ==> r == 1
    ensures keys != {} && !IsLeast(0, keys) ==> IsLeast(r, keys)
  {
    if keys == {} then 1
    else
      var first := IntSets.Min(keys);
      if first == 0 then 1 else first
  }

  /** `currentPageData?.chunks || []`. */
  function CurrentChunks(pageDataByPage: map<int, PageData>, currentPage: int): (r: seq<Chunk>)
    ensures currentPage !in pageDataByPage ==> r == []
    ensures currentPage in pageDataByPage ==> r == pageDataByPage[currentPage].chunks
  {
    if currentPage in pageDataByPage then pageDataByPage[currentPage].chunks else []
  }

  /** `currentPageData?.htmlContent || <placeholder>`. */
  function CurrentHtml(pageDataByPage: map<int, PageData>, currentPage: int): (r: string)
    ensures r != ""
    ensures currentPage !in pageDataByPage ==> r == EmptyPageHtml
    ensures currentPage in pageDataByPage && pageDataByPage[currentPage].htmlContent != "" ==>
      r == pageDataByPage[currentPage].htmlContent
  {
    if currentPage in pageDataByPage && pageDataByPage[currentPage].htmlContent != "" then
      pageDataByPage[currentPage].htmlContent
    else EmptyPageHtml
  }

  /** The preview line of the `i`-th chunk: its content, or `청크{i+1}`
      when the content is empty. */
  function MarkdownLine(chunk: Chunk, i: nat): string {
    "- " + OrElse(chunk.content, "청크" + NatToString(i + 1))
  }

  function MarkdownLines(chunks: seq<Chunk>): seq<string> {
    seq(|chunks|, i requires 0 <= i < |chunks| => MarkdownLine(chunks[i], i))
  }

  /** `markdownContent`: never empty; the fixed text without chunks, and
      otherwise starting with the first chunk's line. */
  function MarkdownContent(chunks: seq<Chunk>): (r: string)
    ensures r != ""
    ensures chunks == [] ==> r == EmptyMarkdown
    ensures chunks != [] ==> MarkdownLine(chunks[0], 0) <= r
  {
    if |chunks| == 0 then EmptyMarkdown else Join(MarkdownLines(chunks), "\n")
  }

  /** `e?.message || <default>`: the error text after a failed load, never
      empty. */
  function LoadErrorText(message: Option<string>): (r: string)
    ensures r != ""
    ensures message.Some? && message.value != "" ==> r == message.value
    ensures message.None? || message.value == "" ==> r == DefaultLoadError
  {
    match message
    case Some(m) => if m != "" then m else DefaultLoadError
    case None => DefaultLoadError
  }

  /** The record the load stores: each page view model without its
      `pageNumber`. */
  function ToPageData(pages: map<int, PageVM>): map<int, PageData> {
    map p | p in pages :: PageData(pages[p].chunks, pages[p].htmlContent)
  }

  /** The loop of `loadDocument` that copies each page view model into the
      record the viewer keeps, in any key order. */
  method ToViewerRecord(pages: map<int, PageVM>) returns (mapped: map<int, PageData>)
    ensures mapped == ToPageData(pages)
  {
    mapped := map[];
    var keys := pages.Keys;
    while keys != {}
      invariant keys <= pages.Keys
      invariant mapped == map p | p in pages.Keys - keys :: PageData(pages[p].chunks, pages[p].htmlContent)
      decreases keys
    {
      IntSets.HasElement(keys);
      var page :| page in keys;
      var pageVm := pages[page];
      mapped := mapped[page := PageData(pageVm.chunks, pageVm.htmlContent)];
      keys := keys - {page};
    }
    assert pages.Keys - keys == pages.Keys;
  }

  /** The viewer's state: `currentPage`, `activeChunkId` (`None` for
      `undefined`), `pageDataByPage`, `isLoading` and `error` (`None` for
      `null`). */
  class ViewerSession {
    var currentPage: int
    var activeChunkId: Option<string>
    var pageDataByPage: map<int, PageData>
    var isLoading: bool
    var error: Option<string>

    /** The three panes agree: a highlighted chunk is one of the chunks of
        the page shown. */
    ghost predicate HighlightOnPage()
      reads this
    {
      activeChunkId.Some? ==>
        exists c :: c in CurrentChunks(pageDataByPage, currentPage) && c.id == activeChunkId.value
    }

    /** The initial state of the page. */
    constructor ()
      ensures currentPage == 1 && activeChunkId == None && pageDataByPage == map[]
      ensures !isLoading && error == None
      ensures HighlightOnPage()
    {
      currentPage := 1;
      activeChunkId := None;
      pageDataByPage := map[];
      isLoading := false;
      error := None;
    }

    /** `handlePageChange(newPage)`: no bounds check, the highlight is
        cleared. */
    method HandlePageChange(newPage: int)
      modifies this
      ensures currentPage == newPage && activeChunkId == None
      ensures pageDataByPage == old(pageDataByPage) && isLoading == old(isLoading) && error == old(error)
      ensures HighlightOnPage()
    {
      currentPage := newPage;
      activeChunkId := None;
    }

    /** `handleChunkClick(chunk)`: highlight the chunk and show its page.
        A chunk taken from its own page's record keeps the panes in
        agreement. */
    method HandleChunkClick(chunk: Chunk)
      modifies this
      ensures activeChunkId == Some(chunk.id) && currentPage == chunk.page
      ensures pageDataByPage == old(pageDataByPage) && isLoading == old(isLoading) && error == old(error)
      ensures old(chunk.page in pageDataByPage && chunk in pageDataByPage[chunk.page].chunks) ==> HighlightOnPage()
    {
      activeChunkId := Some(chunk.id);
      if chunk.page != currentPage {
        currentPage := chunk.page;
      }
    }

    /** `loadDocument()` for the document `fileName`, where `fetched` is
        what fetching its rows produced: the rows, or the message of the
        exception thrown (`None` when it had none). */
    method LoadDocument(fileName: string, fetched: Result<seq<BackendChunk>, Option<string>>)
      modifies this
      ensures fileName == "" ==>
        && currentPage == old(currentPage) && activeChunkId == old(activeChunkId)
        && pageDataByPage == old(pageDataByPage) && isLoading == old(isLoading) && error == old(error)
      ensures fileName != "" && fetched.Success? ==>
        && pageDataByPage == ToPageData(BuiltPages(fetched.value))
        && currentPage == FirstPageAfterLoad(pageDataByPage.Keys)
        && activeChunkId == None && error == None && !isLoading
      ensures fileName != "" && fetched.Failure? ==>
        && pageDataByPage == map[] && currentPage == 1
        && activeChunkId == None && error == Some(LoadErrorText(fetched.error)) && !isLoading
      ensures old(HighlightOnPage()) ==> HighlightOnPage()
      ensures fileName != "" ==> HighlightOnPage()
    {
      if fileName == "" {
        return;
      }
      isLoading := true;
      error := None;
      activeChunkId := None;
      match fetched {
        case Failure(message) =>
          error := Some(LoadErrorText(message));
          pageDataByPage := map[];
          currentPage := 1;
        case Success(rows) =>
          var pages := BuildPagesFromBackendChunks(rows);
          var mapped := ToViewerRecord(pages);
          pageDataByPage := mapped;
          currentPage := FirstPageAfterLoad(mapped.Keys);
      }
      isLoading := false;
    }
  }

  // ---------------------------------------------------------------------
  // Properties
  // ---------------------------------------------------------------------

  /** The page shown after a load is one of the loaded pages exactly when
      there are pages and either the smallest is not 0 or page 1 exists. */
  lemma FirstPageIsLoaded(keys: set<int>)
    ensures FirstPageAfterLoad(keys) in keys <==> keys != {} && (!IsLeast(0, keys) || 1 in keys)
  {
  }

  /** Assembled page markup never starts like the placeholder, so it is
      never taken for it. */
  lemma PageHtmlIsNotPlaceholder(page: int, contents: seq<string>)
    ensures PageHtml(page, contents) != "" && PageHtml(page, contents) != EmptyPageHtml
  {
    var rest := IntToString(page) + (PageMid + PageBody(contents) + PageClose);
    assert PageHtml(page, contents) == PageOpen + rest;
    assert PageOpen[0] == '\n';
    assert (PageOpen + rest)[0] == PageOpen[0];
    assert EmptyPageHtml[0] == '<';
  }

  /** After loading `rows`, the html pane shows the placeholder exactly when
      the current page was not built, and otherwise the page's own markup
      and chunks. */
  lemma CurrentViewOfLoadedPages(rows: seq<BackendChunk>, currentPage: int)
    ensures var data := ToPageData(BuiltPages(rows));
      && (CurrentHtml(data, currentPage) == EmptyPageHtml <==> currentPage !in BuiltPages(rows))
      && (currentPage in BuiltPages(rows) ==>
            && CurrentHtml(data, currentPage) == BuiltPages(rows)[currentPage].htmlContent
            && CurrentChunks(data, currentPage) == ChunksOn(rows, currentPage))
      && (currentPage !in BuiltPages(rows) ==> CurrentChunks(data, currentPage) == [])
  {
    if currentPage in BuiltPages(rows) {
      var chunks := ChunksOn(rows, currentPage);
      PageHtmlIsNotPlaceholder(currentPage, Contents(chunks));
    }
  }

  /** The preview has one line per chunk, in chunk order, as long as no
      chunk content holds a line break. */
  lemma {:induction false} MarkdownHasOneLinePerChunk(chunks: seq<Chunk>)
    requires |chunks| >= 1
    requires forall k :: 0 <= k < |chunks| ==> '\n' !in chunks[k].content
    ensures Split(MarkdownContent(chunks), '\n') == MarkdownLines(chunks)
    ensures forall k :: 0 <= k < |chunks| ==>
      MarkdownLines(chunks)[k][..2] == "- " &&
      MarkdownLines(chunks)[k][2..] == (if chunks[k].content == "" then "청크" + NatToString(k + 1) else chunks[k].content)
  {
    var lines := MarkdownLines(chunks);
    forall k | 0 <= k < |lines| ensures '\n' !in lines[k] {
      var fallback := "청크" + NatToString(k + 1);
      assert forall x :: x in fallback ==> x == '청' || x == '크' || IsDigit(x) by {
        forall x | x in fallback ensures x == '청' || x == '크' || IsDigit(x) {
          var j :| 0 <= j < |fallback| && fallback[j] == x;
          if j >= 2 {
            assert x == NatToString(k + 1)[j - 2];
          }
        }
      }
    }
    SplitJoin(lines, '\n');
  }
}
