# Document viewer core, modelled in Dafny

This project models the logic of a small document viewer. The frontend shows a PDF, the page's assembled markup and its chunks side by side. The backend returns a file's chunks from a vector store.

Four pieces are modelled:

- **Page view-model builder** (`buildPagesFromBackendChunks` and `escapeHtml` in `front/src/lib/api.ts`):
  - `page_builder.dfy` holds the builder's two loops as methods, each proved against a reference definition (`BuiltPages`, `WithHtml`). The lemmas state what that definition promises.
  - `markup.dfy` holds the per-chunk fragment, the tag test `<[^>]+>`, the page wrapper and `escapeHtml`.
- **Viewer session** (`front/src/app/pages/ViewerPage.tsx`, in `viewer_page.dfy`): a class with the page's five state fields and its handlers (page change, chunk click, document load), and the derived reads (`maxPage`, the current-page view with its fallbacks, the markdown preview).
- **PDF page navigation** (`front/src/app/components/PDFViewer.tsx`, in `pdf_viewer.dfy`): a class with the pane's `numPages`, `isLoading` and `pageInput`. Each handler returns the value it passes to `onPageChange`, or `None`. JavaScript's `parseInt(s, 10)` and `Number#toString` are modelled in `js_number.dfy`.
- **Search-hit post-processing** (`_fetch_and_process` in `back/rag.py`, in `rag.dfy`):
  - the wildcard pattern;
  - the row mapping with its defaults and `int()` truncation;
  - the in-place stable sort by page, on an `array`.

The vector-store search is a function parameter.

Support modules:

- `wrappers.dfy`: `Option` and `Result`.
- `text.dfy`: one-character `replaceAll`, `join` and `split`.
- `int_sets.dfy`: the minimum and maximum of a finite set of integers.

The model keeps these behaviours of the code as written:

- The builder never escapes plain text. `escapeHtml` is defined but never called.
- Rows with negative pages are kept, under their negative page.
- The first page after a load is `firstPage || 1`, so a smallest page of 0 shows page 1.
- The tag test needs at least one character other than `>` between `<` and `>`.
- The next button compares against `numPages` only. From a negative page it requests a page even when no document is loaded (`PdfViewer.NextWithoutDocument`).
- The viewer's current page is not kept at 1 or above. A page change takes any number, and the first page after a load is the smallest page, which can be negative.
- A hit property that is present with the value `None` stays `None` in the row. Only an absent property gets the empty default.

## Model

| member | source | states |
|---|---|---|
| PageBuilder.BuildPagesFromBackendChunks | front/src/lib/api.ts:43-98 | The result is exactly the reference record `BuiltPages(rows)`: one entry per distinct finite page. Each entry has its rows' chunks in input order and its assembled markup. |
| PageBuilder.GroupRows | front/src/lib/api.ts:46-68 | After the first loop, the keys are exactly the finite pages of the rows. Each entry has `pageNumber` equal to its key, the chunks of that page's rows in input order, and an empty body. |
| PageBuilder.AssembleHtml | front/src/lib/api.ts:70-95 | The second loop gives every page the wrapper markup built from its own chunk contents, in any key order. Keys, page numbers and chunks are unchanged. |
| PageBuilder.RowLandsInItsPage | front/src/lib/api.ts:46-67 | A row on a finite page `p` makes `p` a key. That row is the chunk of `p` whose position counts the earlier rows of `p`, with the derived id, title, content and span. |
| PageBuilder.LaterRowsComeLater | front/src/lib/api.ts:59-60 | Of two rows on the same page, the earlier one gets a strictly smaller position. Chunks keep input order, and no two rows share a position. |
| PageBuilder.EveryChunkHasARow | front/src/lib/api.ts:46-68 | Every chunk of a page comes from a row of that page, at the position its earlier rows give it. Together with RowLandsInItsPage: each finite-page row appears exactly once. |
| PageBuilder.KeysAreFinitePages | front/src/lib/api.ts:46-57 | A page is a key if and only if some row lies on that finite page. |
| PageBuilder.MissingPageIsPageZero | front/src/lib/api.ts:47 | A row without `i_page` is filed under page 0. |
| PageBuilder.NonFiniteRowIsSkipped | front/src/lib/api.ts:48 | Inserting a NaN or infinite row anywhere changes neither the keys nor any page's chunks. |
| PageBuilder.PageShape | front/src/lib/api.ts:50-67 | Each page has at least one chunk. Its k-th chunk has id `(file_name or "file")-page-k`, title `(file_name or "문서") - 페이지 page`, the row's content, start 0 and end equal to the content length. |
| PageBuilder.PlaceholderOnlyForOneEmptyChunk | front/src/lib/api.ts:85-92 | A page's joined fragments are empty, and so get the placeholder, exactly when the page has a single chunk whose content is empty. |
| PageBuilder.ChunkId | front/src/lib/api.ts:59 | An id ends with `-` followed by the chunk's position within its page. |
| PageBuilder.ChunkTitle | front/src/lib/api.ts:63 | A title ends with the page number. |
| PageBuilder.ChunkIdsUniqueWithinPage | front/src/lib/api.ts:59 | Two different chunks of one page have different ids, whatever the file names. |
| Markup.EscapeHtml | front/src/lib/api.ts:100-107 | The escaped text holds none of `<`, `>`, `"`, `'`. |
| Markup.UnescapeEscapeHtml | front/src/lib/api.ts:100-107 | Because `&` is replaced first, decoding the five entities gives back the original text. |
| Markup.HasTag | front/src/lib/api.ts:77 | A text with a tag holds both `<` and `>`. The exact match with `<[^>]+>` is Markup.HasTagIsRegexMatch. |
| Markup.HasTagIsRegexMatch | front/src/lib/api.ts:77 | The scan holds exactly when the text contains a match of `<[^>]+>`. |
| Markup.Fragment | front/src/lib/api.ts:74-84 | A fragment is empty exactly when the chunk's content is empty. |
| Markup.TaggedFragmentUnchanged | front/src/lib/api.ts:77-80 | Content that contains a tag passes through unchanged. |
| Markup.FragmentOfPlainTextRoundTrip | front/src/lib/api.ts:81-84 | For content without a tag, turning each `<br/>` back into a newline restores the content. No newline is lost and no break is invented. |
| Markup.PlainFragmentHasNoNewline | front/src/lib/api.ts:83 | The fragment of content without a tag holds no newline. |
| Markup.NoContentIffOneEmptyChunk | front/src/lib/api.ts:85-92 | For at least one chunk, the joined fragments are empty exactly when there is one chunk with empty content. The body is the placeholder exactly then, or when the joined text is the placeholder text itself. |
| Markup.PageBody | front/src/lib/api.ts:92 | The body is never empty. It is the joined fragments whenever they are not empty, and the placeholder otherwise (Markup.NoContentIffOneEmptyChunk). |
| Markup.PageHtml | front/src/lib/api.ts:87-94 | Page markup starts with the page-content wrapper's opening. Markup.HeadingShowsPageNumber shows the heading carries the page number. |
| Markup.HeadingShowsPageNumber | front/src/lib/api.ts:87-94 | The heading inside the wrapper carries the page number: parsing the text after the wrapper's opening gives the page back. |
| Text.ReplaceChar | front/src/lib/api.ts:83 | Every character of the result is an unreplaced character of the input or comes from the replacement. A text without the character is unchanged. |
| Text.Join | front/src/lib/api.ts:85 | A join starts with the first part. A single part is its own join. Each separator between parts adds its length. |
| Text.JoinIsEmpty | front/src/lib/api.ts:85 | With a non-empty separator, the join is empty exactly when there are no parts, or one empty part. |
| Text.SplitJoin | front/src/app/pages/ViewerPage.tsx:44 | Splitting a newline-join of parts without newlines at newlines gives the parts back. |
| JsNumber.ParseInt | front/src/app/components/PDFViewer.tsx:73 | `parseInt` gives NaN exactly when no digit follows the leading white space and the optional sign. |
| JsNumber.ParseIntOfIntToString | front/src/app/components/PDFViewer.tsx:73-78 | Parsing `n.toString()`, followed by anything that does not start with a digit, gives `n` back. |
| JsNumber.ParseIntSkipsWhiteSpace | front/src/app/components/PDFViewer.tsx:73 | Leading white space does not change what `parseInt` reads. |
| JsNumber.IntToString | front/src/app/components/PDFViewer.tsx:40 | `toString` of an integer is non-empty and starts with `-` exactly for negative numbers. |
| JsNumber.IntToStringInjective | front/src/app/components/PDFViewer.tsx:40 | Different integers have different decimal strings. |
| JsNumber.DigitsValueOfNatToString | front/src/app/components/PDFViewer.tsx:40 | Reading back the digits of a natural number's decimal string gives the number. |
| IntSets.Max | front/src/app/pages/ViewerPage.tsx:36 | The maximum of a non-empty set is a member and no member exceeds it. |
| IntSets.Min | front/src/app/pages/ViewerPage.tsx:88-91 | The minimum of a non-empty set is a member and no member is below it. |
| ViewerPage.CurrentChunks | front/src/app/pages/ViewerPage.tsx:39-40 | A page missing from the record shows no chunks. A loaded page shows its own chunks. |
| ViewerPage.CurrentHtml | front/src/app/pages/ViewerPage.tsx:39-41 | The html pane is never empty. It shows the placeholder for a page missing from the record, and a loaded page's own non-empty markup otherwise. |
| ViewerPage.MarkdownContent | front/src/app/pages/ViewerPage.tsx:43-45 | The preview is never empty. It is the fixed text without chunks, and otherwise starts with the first chunk's line. The full line structure is ViewerPage.MarkdownHasOneLinePerChunk. |
| ViewerPage.MaxPage | front/src/app/pages/ViewerPage.tsx:34-37 | `maxPage` is 1 for an empty record, and otherwise the largest key, with no clamping. |
| ViewerPage.FirstPageAfterLoad | front/src/app/pages/ViewerPage.tsx:88-92 | The page after a load is 1 when there are no pages or the smallest page is 0, and otherwise the smallest page. |
| ViewerPage.FirstPageIsLoaded | front/src/app/pages/ViewerPage.tsx:88-92 | The page shown after a load is a loaded page if and only if there are pages and either the smallest is not 0 or page 1 exists. |
| ViewerPage.LoadErrorText | front/src/app/pages/ViewerPage.tsx:94 | The error after a failed load is the message when it is non-empty, and otherwise the default text. It is never empty. |
| ViewerPage.ToViewerRecord | front/src/app/pages/ViewerPage.tsx:80-85 | The copy loop yields, for every built page, its chunks and markup under the same key, and nothing else. |
| ViewerPage.ViewerSession.constructor | front/src/app/pages/ViewerPage.tsx:26-32 | Initial state: page 1, no highlighted chunk, no pages, not loading, no error. The highlight invariant holds: a highlighted chunk is a chunk of the page shown. |
| ViewerPage.ViewerSession.HandlePageChange | front/src/app/pages/ViewerPage.tsx:47-50 | Sets the page to the requested one with no bounds check and clears the highlight. Nothing else changes, and the highlight invariant holds afterwards. |
| ViewerPage.ViewerSession.HandleChunkClick | front/src/app/pages/ViewerPage.tsx:52-57 | Highlights the chunk's id and shows its page. The highlight is kept when the page moves. Nothing else changes. A chunk taken from its own page in the record leaves the highlight invariant holding. |
| ViewerPage.ViewerSession.LoadDocument | front/src/app/pages/ViewerPage.tsx:70-100 | An empty file name changes nothing. On success the record is replaced by the builder's pages, the page becomes `firstPage or 1`, and the highlight and error are cleared. On failure the record is emptied, the page is 1 and the error is the message or the default. Loading ends false on both paths. The highlight invariant holds after every load that runs and is kept by the early return. |
| ViewerPage.PageHtmlIsNotPlaceholder | front/src/app/pages/ViewerPage.tsx:41 | Assembled page markup is never empty, so the viewer's placeholder is never shown for a built page. |
| ViewerPage.CurrentViewOfLoadedPages | front/src/app/pages/ViewerPage.tsx:39-41 | After a load, the html pane shows the placeholder exactly when the current page was not built. A built page shows its own markup and chunks. An absent page shows no chunks. |
| ViewerPage.MarkdownHasOneLinePerChunk | front/src/app/pages/ViewerPage.tsx:43-45 | When no content holds a newline, the preview splits into exactly one line per chunk, in chunk order. Each line is `- ` followed by the content, or `청크{i+1}` when the content is empty. |
| PdfViewer.PrevTarget | front/src/app/components/PDFViewer.tsx:50-54 | Previous requests `currentPage - 1` if and only if the current page is above 1. |
| PdfViewer.NextTarget | front/src/app/components/PDFViewer.tsx:56-60 | Next requests `currentPage + 1` if and only if the current page is below `numPages`. |
| PdfViewer.SubmitTarget | front/src/app/components/PDFViewer.tsx:72-76 | Submit requests the parsed number if and only if `parseInt` gives a number in `[1, numPages]`. |
| PdfViewer.SyncTarget | front/src/app/components/PDFViewer.tsx:44-48 | The sync effect re-emits the current page if and only if a document is loaded and the page lies in `[1, numPages]`. |
| PdfViewer.PdfPane.constructor | front/src/app/components/PDFViewer.tsx:16-19 | Initial state: no pages, loading, empty box. |
| PdfViewer.PdfPane.OnDocumentLoadSuccess | front/src/app/components/PDFViewer.tsx:33-36 | Stores the page count and ends loading. |
| PdfViewer.PdfPane.CurrentPageChanged | front/src/app/components/PDFViewer.tsx:39-41 | The box shows the current page's decimal string. |
| PdfViewer.PdfPane.PageSyncEffect | front/src/app/components/PDFViewer.tsx:44-48 | Emits what SyncTarget says. |
| PdfViewer.PdfPane.GoToPrevPage | front/src/app/components/PDFViewer.tsx:50-54 | Emits what PrevTarget says. |
| PdfViewer.PdfPane.GoToNextPage | front/src/app/components/PDFViewer.tsx:56-60 | Emits what NextTarget says. |
| PdfViewer.PdfPane.HandlePageInputChange | front/src/app/components/PDFViewer.tsx:62-64 | The box takes the typed text as is. |
| PdfViewer.PdfPane.HandlePageInputKeyDown | front/src/app/components/PDFViewer.tsx:66-70 | Enter submits. Any other key emits nothing and leaves the box alone. |
| PdfViewer.PdfPane.HandlePageInputSubmit | front/src/app/components/PDFViewer.tsx:72-80 | Emits the typed page when it is in range. Otherwise it emits nothing and puts the current page's decimal string back into the box. |
| PdfViewer.SubmitOfPageNumber | front/src/app/components/PDFViewer.tsx:72-76 | Submitting a page's decimal string, followed by anything not starting with a digit, requests that page exactly when it is in `[1, numPages]`. |
| PdfViewer.ResetTextAgreesWithSync | front/src/app/components/PDFViewer.tsx:77-79 | Submitting the reset text again requests the current page exactly when the sync effect would re-emit it. |
| PdfViewer.SubmitIgnoresLeadingWhiteSpace | front/src/app/components/PDFViewer.tsx:73 | White space typed before the number does not change what submitting requests. |
| PdfViewer.PrevAndNextAreInverse | front/src/app/components/PDFViewer.tsx:50-60 | Inside the document, previous then next, or next then previous, requests the starting page again. |
| PdfViewer.NextWithoutDocument | front/src/app/components/PDFViewer.tsx:56-60 | With no document loaded, next requests nothing from a non-negative page, but from a negative page it requests a page outside the document. |
| Rag.SearchPattern | back/rag.py:19 | A pattern without `*` gets a `*` on each side, and a pattern with one is unchanged. |
| Rag.SearchPatternIdempotent | back/rag.py:19 | Deriving the pattern twice gives the same pattern as deriving it once. |
| Rag.Truncate | back/rag.py:35 | `int()` of a float truncates toward zero: the result lies within one of the float, on the side nearer zero. |
| Rag.ProcessHit | back/rag.py:31-39 | A row takes `content` from `text`. Absent `text`, `file_name` and `file_path` become empty, and ones present as `None` stay `None`. An absent `i_page` becomes 0, and a float page is truncated toward zero. |
| Rag.Processed | back/rag.py:31-39 | There is one row per hit, in hit order. |
| Rag.SortByPage | back/rag.py:40 | The sort leaves the list ordered by page and keeps every page's rows in their original order, so it is stable. |
| Rag.InsertRow | back/rag.py:40 | One insertion step extends the sorted prefix by one row, keeps every page's rows in order and leaves the rows after it untouched. |
| Rag.FetchAndProcess | back/rag.py:17-41 | No hits give no rows. Otherwise the rows are the mapped hits, sorted by page, with each page's rows in search order. |
| Rag.FiltersMakePermutation | back/rag.py:40 | Keeping every page's rows makes the output a permutation of the input. |
| Rag.FetchedRowsArePermutation | back/rag.py:31-40 | The fetched rows are a permutation of the mapped hits, one per hit. |
| Rag.StableSortIsUnique | back/rag.py:40 | A page-sorted list that keeps every page's rows in order is unique, so any stable sort (Python's included) gives exactly these rows. |

## Left out

- HTTP and the environment (`fetchFileList`, `fetchChunksByFileName`, `getApiBaseUrl`): the load takes what the fetch produced, rows or an error message, as a parameter.
- Timing: the `await` in `loadDocument`, the React effects that trigger it, and render scheduling between the PDF pane's sync effect and the viewer's handlers. The code has no latest-request guard, and none is modelled.
- Zoom, react-pdf rendering and the pdf.js worker: floating point and rendering only.
- The presentation components, mock data, build configuration, the Weaviate and embedding wrappers, and the FastAPI routes (`back/vector.py`, `back/embedding.py`, `back/main.py`) are not part of this model. Nor is `show_documents` in `back/rag.py` or the `with vectordb()` connection around the search.
- Page numbers are integers. JavaScript numbers with a fraction, `-0` and integers beyond 2^53 are not modelled. The builder's `Number.isFinite` test becomes the `NonFinite` case of the row's page.
- `endIndex` uses the sequence length of the content, not its UTF-16 length.
- HTML is opaque text: no markup semantics beyond the tag test.
- ViewerPage.MarkdownContent: the preview's `c.text ||` alternative is not modelled, because the chunks the builder produces carry no `text` field.
- The builder's `pages` record and the viewer's `mapped` record are `map` values, filled by loops in methods. Object-key order is not modelled; the loops are proved for any order.
- Rag.SortByPage: Python's `list.sort` (Timsort) is modelled by an insertion sort on an array. Its contract pins the result down completely (Rag.StableSortIsUnique), so any stable sort returns the same rows.
- Rag.ProcessHit: `int()` raising on NaN, infinities, an `i_page` present as `None` or non-numeric strings is not modelled. Pages are integers or finite floats.
- Rag.FetchAndProcess: a `None` result from the search is modelled as the empty list. Failures of the search call are not modelled.
