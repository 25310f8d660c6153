/** `buildPagesFromBackendChunks` from `front/src/lib/api.ts`: turns the
    flat, ordered rows the backend returns for one file into a record from
    page number to page view model (its chunks in input order and its
    assembled `htmlContent`). */
module PageBuilder {
  import opened Wrappers
  import opened JsNumber
  import opened Markup
  import IntSets

  /** A row's `i_page` as the builder sees it: absent (`null` or
      `undefined`), a finite integer, or `NaN`/`Infinity`/`-Infinity`. */
  datatype PageValue = Missing | Finite(n: int) | NonFinite

  /** One row of the backend response. */
  datatype BackendChunk = BackendChunk(content: string, fileName: string, filePath: string, iPage: PageValue)

  /** One chunk of a page view model. */
  datatype Chunk = Chunk(id: string, page: int, title: string, content: string, startIndex: int, endIndex: int)

  datatype PageVM = PageVM(pageNumber: int, chunks: seq<Chunk>, htmlContent: string)

  /** `Number(row.i_page ?? 0)` when it is finite; `None` for a row the
      builder skips. */
  function PageOf(v: PageValue): Option<int> {
    match v
    case Missing => Some(0)
    case Finite(n) => Some(n)
    case NonFinite => None
  }

  predicate OnPage(row: BackendChunk, p: int) {
    PageOf(row.iPage) == Some(p)
  }

  /** JavaScript `s || fallback` on a string. */
  function OrElse(s: string, fallback: string): string {
    if s == "" then fallback else s
  }

  /** `${file_name || 'file'}-${page}-${k}`: it ends with `-` and the
      position within the page. */
  function ChunkId(fileName: string, page: int, k: nat): (r: string)
    ensures |NatToString(k)| < |r| && r[|r| - |NatToString(k)| - 1..] == "-" + NatToString(k)
  {
    OrElse(fileName, "file") + "-" + IntToString(page) + "-" + NatToString(k)
  }

  /** `${file_name || '문서'} - 페이지 ${page}`: the title ends with the
      page number. */
  function ChunkTitle(fileName: string, page: int): (r: string)
    ensures |IntToString(page)| <= |r| && r[|r| - |IntToString(page)|..] == IntToString(page)
  {
    OrElse(fileName, "문서") + " - 페이지 " + IntToString(page)
  }

  /** The chunk that row `row` becomes as the `k`-th chunk of page `page`. */
  function MakeChunk(row: BackendChunk, page: int, k: nat): Chunk {
    Chunk(ChunkId(row.fileName, page, k), page, ChunkTitle(row.fileName, page),
          row.content, 0, |row.content|)
  }

  // ---------------------------------------------------------------------
  // The reference definition: filter the rows of each page, then number them
  // ---------------------------------------------------------------------

  /** The rows of page `p`, in input order. */
  function RowsOn(rows: seq<BackendChunk>, p: int): (r: seq<BackendChunk>)
    ensures |r| <= |rows|
  {
    if rows == [] then []
    else
      var last := rows[|rows| - 1];
      RowsOn(rows[..|rows| - 1], p) + (if OnPage(last, p) then [last] else [])
  }

  /** The chunks of page `p`. */
  function ChunksOn(rows: seq<BackendChunk>, p: int): seq<Chunk> {
    var on := RowsOn(rows, p);
    seq(|on|, k requires 0 <= k < |on| => MakeChunk(on[k], p, k))
  }

  function Contents(chunks: seq<Chunk>): seq<string> {
    seq(|chunks|, k requires 0 <= k < |chunks| => chunks[k].content)
  }

  /** The finite pages that occur in `rows`. */
  function PageSet(rows: seq<BackendChunk>): set<int> {
    set r | r in rows && PageOf(r.iPage).Some? :: PageOf(r.iPage).value
  }

  function PageFor(rows: seq<BackendChunk>, p: int): PageVM {
    var chunks := ChunksOn(rows, p);
    PageVM(p, chunks, PageHtml(p, Contents(chunks)))
  }

  /** What the builder returns for `rows`. */
  function BuiltPages(rows: seq<BackendChunk>): map<int, PageVM> {
    map p | p in PageSet(rows) :: PageFor(rows, p)
  }

  // ---------------------------------------------------------------------
  // The builder
  // ---------------------------------------------------------------------

  lemma RowsOnSnoc(rows: seq<BackendChunk>, row: BackendChunk, p: int)
    ensures RowsOn(rows + [row], p) == RowsOn(rows, p) + (if OnPage(row, p) then [row] else [])
  {
    assert (rows + [row])[..|rows|] == rows;
  }

  lemma ChunksOnSnoc(rows: seq<BackendChunk>, row: BackendChunk, p: int)
    ensures ChunksOn(rows + [row], p) ==
      ChunksOn(rows, p) + (if OnPage(row, p) then [MakeChunk(row, p, |RowsOn(rows, p)|)] else [])
  {
    RowsOnSnoc(rows, row, p);
  }

  lemma PageSetSnoc(rows: seq<BackendChunk>, row: BackendChunk)
    ensures PageSet(rows + [row]) ==
      PageSet(rows) + (if PageOf(row.iPage).Some? then {PageOf(row.iPage).value} else {})
  {
    var l := PageSet(rows + [row]);
    var r := PageSet(rows) + (if PageOf(row.iPage).Some? then {PageOf(row.iPage).value} else {});
    forall p | p in l ensures p in r {
      var x :| x in rows + [row] && PageOf(x.iPage) == Some(p);
      if x != row {
        assert x in rows;
      }
    }
    forall p | p in r ensures p in l {
      if p in PageSet(rows) {
        var x :| x in rows && PageOf(x.iPage) == Some(p);
        assert x in rows + [row];
      } else {
        assert row in rows + [row];
      }
    }
  }

  /** A page that does not occur has no rows. */
  lemma {:induction false} RowsOnAbsentPage(rows: seq<BackendChunk>, p: int)
    requires p !in PageSet(rows)
    ensures RowsOn(rows, p) == []
    decreases |rows|
  {
    if rows != [] {
      var init := rows[..|rows| - 1];
      var last := rows[|rows| - 1];
      assert rows == init + [last];
      PageSetSnoc(init, last);
      RowsOnAbsentPage(init, p);
    }
  }

  /** What the first loop has built after reading `prefix`: every page
      seen so far, with its chunks and an html body not yet assembled. */
  ghost predicate Partial(pages: map<int, PageVM>, prefix: seq<BackendChunk>) {
    && pages.Keys == PageSet(prefix)
    && forall p :: p in pages ==> pages[p] == PageVM(p, ChunksOn(prefix, p), "")
  }

  lemma SkipRow(pages: map<int, PageVM>, prefix: seq<BackendChunk>, row: BackendChunk)
    requires Partial(pages, prefix) && PageOf(row.iPage).None?
    ensures Partial(pages, prefix + [row])
  {
    PageSetSnoc(prefix, row);
    forall p | p in pages ensures ChunksOn(prefix + [row], p) == ChunksOn(prefix, p) {
      ChunksOnSnoc(prefix, row, p);
    }
  }

  lemma AppendRow(pages: map<int, PageVM>, prefix: seq<BackendChunk>, row: BackendChunk,
                  page: int, withPage: map<int, PageVM>, chunk: Chunk)
    requires Partial(pages, prefix) && PageOf(row.iPage) == Some(page)
    requires withPage == if page in pages then pages else pages[page := PageVM(page, [], "")]
    requires chunk == Chunk(ChunkId(row.fileName, page, |withPage[page].chunks|), page,
                            ChunkTitle(row.fileName, page), row.content, 0, |row.content|)
    ensures Partial(withPage[page := withPage[page].(chunks := withPage[page].chunks + [chunk])], prefix + [row])
  {
    if page !in pages {
      RowsOnAbsentPage(prefix, page);
    }
    assert chunk == MakeChunk(row, page, |RowsOn(prefix, page)|);
    PageSetSnoc(prefix, row);
    forall p ensures ChunksOn(prefix + [row], p) ==
      ChunksOn(prefix, p) + (if OnPage(row, p) then [MakeChunk(row, p, |RowsOn(prefix, p)|)] else [])
    {
      ChunksOnSnoc(prefix, row, p);
    }
  }

  /** The first loop of `buildPagesFromBackendChunks`: creates a page on
      first sight and appends each row's chunk to it, skipping rows whose
      page is not finite; no page has its html body yet. */
  method GroupRows(rows: seq<BackendChunk>) returns (pages: map<int, PageVM>)
    ensures pages.Keys == PageSet(rows)
    ensures forall p :: p in pages ==> pages[p] == PageVM(p, ChunksOn(rows, p), "")
  {
    pages := map[];
    var i := 0;
    while i < |rows|
      invariant 0 <= i <= |rows|
      invariant Partial(pages, rows[..i])
    {
      var row := rows[i];
      assert rows[..i + 1] == rows[..i] + [row];
      ghost var before := pages;
      match PageOf(row.iPage) {
        case None =>
          SkipRow(pages, rows[..i], row);
        case Some(page) =>
          if page !in pages {
            pages := pages[page := PageVM(page, [], "")];
          }
          var id := ChunkId(row.fileName, page, |pages[page].chunks|);
          var chunk := Chunk(id, page, ChunkTitle(row.fileName, page), row.content, 0, |row.content|);
          AppendRow(before, rows[..i], row, page, pages, chunk);
          pages := pages[page := pages[page].(chunks := pages[page].chunks + [chunk])];
      }
      i := i + 1;
    }
    assert rows[..i] == rows;
  }

  /** Every page of `grouped` with its html body assembled from its chunks. */
  function WithHtml(grouped: map<int, PageVM>): map<int, PageVM> {
    map p | p in grouped :: grouped[p].(htmlContent := PageHtml(p, Contents(grouped[p].chunks)))
  }

  /** The second loop of `buildPagesFromBackendChunks`: assembles the html
      body of every page, in any key order. */
  method AssembleHtml(grouped: map<int, PageVM>) returns (pages: map<int, PageVM>)
    ensures pages == WithHtml(grouped)
  {
    pages := grouped;
    var keys := pages.Keys;
    while keys != {}
      invariant Assembling(pages, grouped, keys)
      decreases keys
    {
      IntSets.HasElement(keys);
      var page :| page in keys;
      var html := PageHtml(page, Contents(pages[page].chunks));
      AssembleOne(pages, grouped, keys, page, html);
      pages := pages[page := pages[page].(htmlContent := html)];
      keys := keys - {page};
    }
    DoneAssembling(pages, grouped);
  }

  /** What the second loop has done: every page outside `pending` has its
      html body. */
  ghost predicate Assembling(pages: map<int, PageVM>, grouped: map<int, PageVM>, pending: set<int>) {
    && pending <= pages.Keys == grouped.Keys
    && forall p :: p in pages ==>
         pages[p] == (if p in pending then grouped[p]
                      else grouped[p].(htmlContent := PageHtml(p, Contents(grouped[p].chunks))))
  }

  lemma AssembleOne(pages: map<int, PageVM>, grouped: map<int, PageVM>, pending: set<int>, page: int, html: string)
    requires Assembling(pages, grouped, pending) && page in pending
    requires html == PageHtml(page, Contents(pages[page].chunks))
    ensures Assembling(pages[page := pages[page].(htmlContent := html)], grouped, pending - {page})
  {
  }

  lemma DoneAssembling(pages: map<int, PageVM>, grouped: map<int, PageVM>)
    requires Assembling(pages, grouped, {})
    ensures pages == WithHtml(grouped)
  {
  }

  /** `buildPagesFromBackendChunks(rows)`: its two loops, in turn. */
  method BuildPagesFromBackendChunks(rows: seq<BackendChunk>) returns (pages: map<int, PageVM>)
    ensures pages == BuiltPages(rows)
  {
    var grouped := GroupRows(rows);
    pages := AssembleHtml(grouped);
    GroupedThenAssembled(rows, grouped);
  }

  lemma GroupedThenAssembled(rows: seq<BackendChunk>, grouped: map<int, PageVM>)
    requires grouped.Keys == PageSet(rows)
    requires forall p :: p in grouped ==> grouped[p] == PageVM(p, ChunksOn(rows, p), "")
    ensures WithHtml(grouped) == BuiltPages(rows)
  {
  }

  // ---------------------------------------------------------------------
  // Properties
  // ---------------------------------------------------------------------

  lemma {:induction false} RowsOnAppend(a: seq<BackendChunk>, b: seq<BackendChunk>, p: int)
    ensures RowsOn(a + b, p) == RowsOn(a, p) + RowsOn(b, p)
    decreases |b|
  {
    if b == [] {
      assert a + b == a;
    } else {
      var b' := b[..|b| - 1];
      var last := b[|b| - 1];
      assert a + b == (a + b') + [last];
      assert b == b' + [last];
      RowsOnSnoc(a + b', last, p);
      RowsOnSnoc(b', last, p);
      RowsOnAppend(a, b', p);
    }
  }

  /** Row `i` of a finite page `p` is chunk number k of page `p`, where k
      counts the earlier rows of that page: every such row appears in its
      page, in input order. */
  lemma RowLandsInItsPage(rows: seq<BackendChunk>, i: int, p: int)
    requires 0 <= i < |rows| && OnPage(rows[i], p)
    ensures p in PageSet(rows)
    ensures |RowsOn(rows[..i], p)| < |ChunksOn(rows, p)|
    ensures ChunksOn(rows, p)[|RowsOn(rows[..i], p)|] == MakeChunk(rows[i], p, |RowsOn(rows[..i], p)|)
  {
    assert rows[i] in rows;
    assert p in PageSet(rows);
    assert rows == rows[..i] + [rows[i]] + rows[i + 1..];
    RowsOnAppend(rows[..i] + [rows[i]], rows[i + 1..], p);
    RowsOnSnoc(rows[..i], rows[i], p);
  }

  /** Of two rows of the same page, the earlier one gets the earlier
      position: chunks keep input order, and no position is shared. */
  lemma LaterRowsComeLater(rows: seq<BackendChunk>, i: int, j: int, p: int)
    requires 0 <= i < j < |rows| && OnPage(rows[i], p) && OnPage(rows[j], p)
    ensures |RowsOn(rows[..i], p)| < |RowsOn(rows[..j], p)|
  {
    assert rows[..j] == rows[..i] + [rows[i]] + rows[i + 1..j];
    RowsOnAppend(rows[..i] + [rows[i]], rows[i + 1..j], p);
    RowsOnSnoc(rows[..i], rows[i], p);
  }

  /** Every chunk of page `p` comes from some row of that page. */
  lemma {:induction false} EveryChunkHasARow(rows: seq<BackendChunk>, p: int, k: int)
    requires 0 <= k < |RowsOn(rows, p)|
    ensures exists i :: 0 <= i < |rows| && OnPage(rows[i], p) && |RowsOn(rows[..i], p)| == k
    decreases |rows|
  {
    var n := |rows|;
    var init := rows[..n - 1];
    if k < |RowsOn(init, p)| {
      EveryChunkHasARow(init, p, k);
      var i :| 0 <= i < |init| && OnPage(init[i], p) && |RowsOn(init[..i], p)| == k;
      assert init[..i] == rows[..i];
    } else {
      assert rows[..n - 1] == init;
      assert OnPage(rows[n - 1], p);
    }
  }

  /** The keys of the result are exactly the finite pages of the rows. */
  lemma KeysAreFinitePages(rows: seq<BackendChunk>, p: int)
    ensures p in PageSet(rows) <==> exists i :: 0 <= i < |rows| && OnPage(rows[i], p)
  {
    if p in PageSet(rows) {
      var r :| r in rows && PageOf(r.iPage) == Some(p);
      var i :| 0 <= i < |rows| && rows[i] == r;
    }
  }

  /** A row without `i_page` is filed under page 0. */
  lemma MissingPageIsPageZero(rows: seq<BackendChunk>, i: int)
    requires 0 <= i < |rows| && rows[i].iPage == Missing
    ensures 0 in PageSet(rows)
    ensures MakeChunk(rows[i], 0, |RowsOn(rows[..i], 0)|) in ChunksOn(rows, 0)
  {
    RowLandsInItsPage(rows, i, 0);
  }

  /** A row whose page is `NaN` or infinite is skipped without any other
      effect: inserting it anywhere changes neither the pages nor any
      page's chunks. */
  lemma NonFiniteRowIsSkipped(a: seq<BackendChunk>, row: BackendChunk, b: seq<BackendChunk>)
    requires row.iPage == NonFinite
    ensures PageSet(a + [row] + b) == PageSet(a + b)
    ensures forall p :: ChunksOn(a + [row] + b, p) == ChunksOn(a + b, p)
  {
    forall p ensures RowsOn(a + [row] + b, p) == RowsOn(a + b, p) {
      RowsOnAppend(a + [row], b, p);
      RowsOnSnoc(a, row, p);
      RowsOnAppend(a, b, p);
    }
    PageSetSnoc(a, row);
    assert PageSet(a + [row] + b) == PageSet(a + b) by {
      forall p | p in PageSet(a + [row] + b) ensures p in PageSet(a + b) {
        var x :| x in a + [row] + b && PageOf(x.iPage) == Some(p);
        assert x in a + b;
      }
      forall p | p in PageSet(a + b) ensures p in PageSet(a + [row] + b) {
        var x :| x in a + b && PageOf(x.iPage) == Some(p);
        assert x in a + [row] + b;
      }
    }
  }

  /** Each page of the result has at least one chunk, and its k-th chunk is
      the k-th row of the page with the derived id and title and a span over
      its whole content. */
  lemma PageShape(rows: seq<BackendChunk>, p: int)
    requires p in PageSet(rows)
    ensures |ChunksOn(rows, p)| == |RowsOn(rows, p)| >= 1
    ensures forall k :: 0 <= k < |RowsOn(rows, p)| ==>
      var c := ChunksOn(rows, p)[k];
      var row := RowsOn(rows, p)[k];
      && c.id == ChunkId(row.fileName, p, k)
      && c.page == p
      && c.title == ChunkTitle(row.fileName, p)
      && c.content == row.content
      && c.startIndex == 0 && c.endIndex == |row.content|
  {
    KeysAreFinitePages(rows, p);
    var i :| 0 <= i < |rows| && OnPage(rows[i], p);
    RowLandsInItsPage(rows, i, p);
  }

  /** The page's body is the "no content" placeholder exactly when the page
      has a single chunk and its content is empty. */
  lemma PlaceholderOnlyForOneEmptyChunk(rows: seq<BackendChunk>, p: int)
    requires p in PageSet(rows)
    ensures var chunks := ChunksOn(rows, p);
      JoinedFragments(Contents(chunks)) == "" <==> |chunks| == 1 && chunks[0].content == ""
  {
    PageShape(rows, p);
    NoContentIffOneEmptyChunk(Contents(ChunksOn(rows, p)));
  }

  /** The text after the last `-`. */
  function AfterLastDash(s: string): string
    decreases |s|
  {
    if s == [] then []
    else if s[|s| - 1] == '-' then []
    else AfterLastDash(s[..|s| - 1]) + [s[|s| - 1]]
  }

  lemma {:induction false} AfterLastDashOf(a: string, d: string)
    requires '-' !in d
    ensures AfterLastDash(a + "-" + d) == d
    decreases |d|
  {
    var s := a + "-" + d;
    if d == [] {
      assert s[|s| - 1] == '-';
    } else {
      var d' := d[..|d| - 1];
      assert s[..|s| - 1] == a + "-" + d';
      assert d[|d| - 1] in d;
      AfterLastDashOf(a, d');
      assert d == d' + [d[|d| - 1]];
    }
  }

  /** Chunk ids are unique within a page, whatever the file names: the
      position is the text after the id's last `-`. */
  lemma ChunkIdsUniqueWithinPage(rows: seq<BackendChunk>, p: int, k1: int, k2: int)
    requires 0 <= k1 < |ChunksOn(rows, p)| && 0 <= k2 < |ChunksOn(rows, p)|
    requires k1 != k2
    ensures ChunksOn(rows, p)[k1].id != ChunksOn(rows, p)[k2].id
  {
    var on := RowsOn(rows, p);
    var d1, d2 := NatToString(k1), NatToString(k2);
    assert '-' !in d1 && '-' !in d2 by {
      assert AllDigits(d1) && AllDigits(d2);
    }
    AfterLastDashOf(OrElse(on[k1].fileName, "file") + "-" + IntToString(p), d1);
    AfterLastDashOf(OrElse(on[k2].fileName, "file") + "-" + IntToString(p), d2);
    if ChunkId(on[k1].fileName, p, k1) == ChunkId(on[k2].fileName, p, k2) {
      NatToStringInjective(k1, k2);
    }
  }
}
