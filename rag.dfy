/** The post-processing of search hits in `back/rag.py`
    (`_fetch_and_process`): the file-name pattern gets wildcards, the raw
    hits become rows with defaults, and the rows are sorted by page, stably. */
module Rag {
  import opened Wrappers

  /** `*pattern*`, unless the pattern already holds a wildcard. */
  function SearchPattern(pattern: string): (r: string)
    ensures '*' in pattern ==> r == pattern
    ensures '*' !in pattern ==> |r| == |pattern| + 2 && r[0] == '*' && r[|r| - 1] == '*' && r[1..|r| - 1] == pattern
  {
    if '*' !in pattern then "*" + pattern + "*" else pattern
  }

  /** Deriving the pattern twice is the same as deriving it once. */
  lemma SearchPatternIdempotent(pattern: string)
    ensures SearchPattern(SearchPattern(pattern)) == SearchPattern(pattern)
  {
    if '*' !in pattern {
      var r := SearchPattern(pattern);
      assert r[0] == '*';
      assert '*' in r;
    }
  }

  /** An `i_page` property as the vector store returns it: an integer or a
      (finite) floating-point number. */
  datatype RawPage = IntPage(i: int) | FloatPage(x: real)

  /** A string property of a hit: absent, present with the value `None`,
      or present with a string. */
  datatype Property = Absent | Null | Given(value: string)

  /** One hit's properties; the page is `None` where it is absent. */
  datatype RawHit = RawHit(text: Property, fileName: Property, iPage: Option<RawPage>, filePath: Property)

  /** One processed row; a string field is `None` where Python holds `None`. */
  datatype Row = Row(content: Option<string>, fileName: Option<string>, iPage: int, filePath: Option<string>)

  /** Python's `int(x)` on a float: truncation toward zero. */
  function Truncate(x: real): (n: int)
    ensures x >= 0.0 ==> n as real <= x < n as real + 1.0
    ensures x < 0.0 ==> x <= n as real < x + 1.0
  {
    if x >= 0.0 then x.Floor else -((-x).Floor)
  }

  /** `int(hit.get('i_page', 0))`. */
  function PageNumber(p: Option<RawPage>): int {
    match p
    case None => 0
    case Some(IntPage(i)) => i
    case Some(FloatPage(x)) => Truncate(x)
  }

  /** `hit.get(key, '')`: the default replaces only an absent property. */
  function GetOrEmpty(p: Property): Option<string> {
    match p
    case Absent => Some("")
    case Null => None
    case Given(v) => Some(v)
  }

  /** The row one hit becomes. */
  function ProcessHit(hit: RawHit): (r: Row)
    ensures r.content == (if hit.text.Absent? then Some("") else if hit.text.Null? then None else Some(hit.text.value))
    ensures r.fileName == (if hit.fileName.Absent? then Some("") else if hit.fileName.Null? then None else Some(hit.fileName.value))
    ensures r.filePath == (if hit.filePath.Absent? then Some("") else if hit.filePath.Null? then None else Some(hit.filePath.value))
    ensures hit.iPage.None? ==> r.iPage == 0
    ensures hit.iPage.Some? && hit.iPage.value.IntPage? ==> r.iPage == hit.iPage.value.i
    ensures hit.iPage.Some? && hit.iPage.value.FloatPage? ==> r.iPage == Truncate(hit.iPage.value.x)
  {
    Row(GetOrEmpty(hit.text), GetOrEmpty(hit.fileName), PageNumber(hit.iPage), GetOrEmpty(hit.filePath))
  }

  /** The list comprehension: one row per hit, in hit order. */
  function Processed(hits: seq<RawHit>): (rows: seq<Row>)
    ensures |rows| == |hits|
    ensures forall k :: 0 <= k < |hits| ==> rows[k] == ProcessHit(hits[k])
  {
    seq(|hits|, k requires 0 <= k < |hits| => ProcessHit(hits[k]))
  }

  // ---------------------------------------------------------------------
  // Sorting by page
  // ---------------------------------------------------------------------

  ghost predicate SortedByPage(s: seq<Row>) {
    forall p, q :: 0 <= p < q < |s| ==> s[p].iPage <= s[q].iPage
  }

  /** The rows of page `k`, in order. A sort is stable exactly when it
      keeps each of these. */
  function PageFilter(s: seq<Row>, k: int): seq<Row>
    decreases |s|
  {
    if s == [] then []
    else (if s[0].iPage == k then [s[0]] else []) + PageFilter(s[1..], k)
  }

  lemma {:induction false} PageFilterAppend(s: seq<Row>, t: seq<Row>, k: int)
    ensures PageFilter(s + t, k) == PageFilter(s, k) + PageFilter(t, k)
    decreases |s|
  {
    if s == [] {
      assert s + t == t;
    } else {
      var head := if s[0].iPage == k then [s[0]] else [];
      assert (s + t)[0] == s[0];
      assert (s + t)[1..] == s[1..] + t;
      PageFilterAppend(s[1..], t, k);
      calc {
        PageFilter(s + t, k);
        head + PageFilter(s[1..] + t, k);
        head + (PageFilter(s[1..], k) + PageFilter(t, k));
        (head + PageFilter(s[1..], k)) + PageFilter(t, k);
      }
    }
  }

  lemma PairFilter(x: Row, y: Row, k: int)
    ensures PageFilter([x, y], k) == (if x.iPage == k then [x] else []) + (if y.iPage == k then [y] else [])
  {
    assert [x, y][0] == x;
    assert [x, y][1..] == [y];
    assert [y][1..] == [];
    assert PageFilter([y], k) == (if y.iPage == k then [y] else []) + PageFilter([], k);
    assert PageFilter([x, y], k) == (if x.iPage == k then [x] else []) + PageFilter([y], k);
  }

  lemma SwapPairKeepsFilter(pre: seq<Row>, x: Row, y: Row, post: seq<Row>, k: int)
    requires x.iPage != y.iPage
    ensures PageFilter(pre + [y, x] + post, k) == PageFilter(pre + [x, y] + post, k)
  {
    PageFilterAppend(pre + [x, y], post, k);
    PageFilterAppend(pre, [x, y], k);
    PageFilterAppend(pre + [y, x], post, k);
    PageFilterAppend(pre, [y, x], k);
    PairFilter(x, y, k);
    PairFilter(y, x, k);
  }

  /** Swapping two neighbours of different pages keeps every page's rows
      in order. */
  lemma SwapKeepsFilters(s: seq<Row>, j: int)
    requires 0 < j < |s| && s[j - 1].iPage != s[j].iPage
    ensures forall k :: PageFilter(s[j - 1 := s[j]][j := s[j - 1]], k) == PageFilter(s, k)
  {
    var t := s[j - 1 := s[j]][j := s[j - 1]];
    var pre, post := s[..j - 1], s[j + 1..];
    assert s == pre + [s[j - 1], s[j]] + post;
    assert t == pre + [s[j], s[j - 1]] + post;
    forall k ensures PageFilter(t, k) == PageFilter(s, k) {
      SwapPairKeepsFilter(pre, s[j - 1], s[j], post, k);
    }
  }

  /** The inner loop's state: `s[..i+1]` is sorted except for the row at
      `j`, which is smaller than every row after it. */
  ghost predicate Inserting(s: seq<Row>, i: int, j: int) {
    && 0 <= j <= i < |s|
    && (forall p, q :: 0 <= p < q <= i && p != j && q != j ==> s[p].iPage <= s[q].iPage)
    && (forall q :: j < q <= i ==> s[j].iPage < s[q].iPage)
  }

  lemma InsertStart(s: seq<Row>, i: int)
    requires 0 <= i < |s| && SortedByPage(s[..i])
    ensures Inserting(s, i, i)
  {
    forall p, q | 0 <= p < q <= i && p != i && q != i ensures s[p].iPage <= s[q].iPage {
      assert s[..i][p] == s[p] && s[..i][q] == s[q];
    }
  }

  lemma InsertStep(s: seq<Row>, i: int, j: int)
    requires Inserting(s, i, j) && 0 < j && s[j - 1].iPage > s[j].iPage
    ensures Inserting(s[j - 1 := s[j]][j := s[j - 1]], i, j - 1)
  {
  }

  lemma InsertDone(s: seq<Row>, i: int, j: int)
    requires Inserting(s, i, j) && (j == 0 || s[j - 1].iPage <= s[j].iPage)
    ensures SortedByPage(s[..i + 1])
  {
    forall p, q | 0 <= p < q < i + 1 ensures s[p].iPage <= s[q].iPage {
      if p == j {
      } else if q == j {
        assert s[p].iPage <= s[j - 1].iPage;
      }
    }
  }

  ghost predicate SameFilters(s: seq<Row>, t: seq<Row>) {
    forall k :: PageFilter(s, k) == PageFilter(t, k)
  }

  /** `processed.sort(key=lambda x: x['i_page'])`, as an insertion sort
      by adjacent swaps of strictly out-of-order neighbours. */
  method SortByPage(a: array<Row>)
    modifies a
    ensures SortedByPage(a[..])
    ensures forall k :: PageFilter(a[..], k) == PageFilter(old(a[..]), k)
  {
    var i := 0;
    while i < a.Length
      invariant 0 <= i <= a.Length
      invariant SortedByPage(a[..i])
      invariant SameFilters(a[..], old(a[..]))
    {
      InsertRow(a, i);
      i := i + 1;
    }
    assert a[..] == a[..a.Length];
  }

  /** One pass of the outer loop: the row at `i` moves down past every
      larger row before it. */
  method InsertRow(a: array<Row>, i: int)
    requires 0 <= i < a.Length && SortedByPage(a[..i])
    modifies a
    ensures SortedByPage(a[..i + 1])
    ensures SameFilters(a[..], old(a[..]))
    ensures a[i + 1..] == old(a[i + 1..])
  {
    InsertStart(a[..], i);
    var j := i;
    while j > 0 && a[j - 1].iPage > a[j].iPage
      invariant Inserting(a[..], i, j)
      invariant SameFilters(a[..], old(a[..]))
      invariant a[i + 1..] == old(a[i + 1..])
    {
      ghost var before := a[..];
      SwapKeepsFilters(before, j);
      InsertStep(before, i, j);
      a[j - 1], a[j] := a[j], a[j - 1];
      assert a[..] == before[j - 1 := before[j]][j := before[j - 1]];
      j := j - 1;
    }
    InsertDone(a[..], i, j);
  }

  // ---------------------------------------------------------------------
  // The fetch
  // ---------------------------------------------------------------------

  /** The arguments of the search call, other than the pattern. */
  const SearchQuery: string := ""
  const SearchLimit: nat := 30

  /** `_fetch_and_process(pattern)`, where `search(query, pattern, topk)`
      stands for the vector store's file-name search. */
  method FetchAndProcess(pattern: string, search: (string, string, nat) -> seq<RawHit>) returns (rows: seq<Row>)
    ensures var raw := search(SearchQuery, SearchPattern(pattern), SearchLimit);
      && (raw == [] ==> rows == [])
      && SortedByPage(rows)
      && forall k :: PageFilter(rows, k) == PageFilter(Processed(raw), k)
  {
    var raw := search(SearchQuery, SearchPattern(pattern), SearchLimit);
    if raw == [] {
      return [];
    }
    var processed := new Row[|raw|](k requires 0 <= k < |raw| => ProcessHit(raw[k]));
    assert processed[..] == Processed(raw);
    SortByPage(processed);
    rows := processed[..];
  }

  // ---------------------------------------------------------------------
  // What the sort's contract determines
  // ---------------------------------------------------------------------

  lemma {:induction false} CountInPageFilter(s: seq<Row>, r: Row)
    ensures multiset(s)[r] == multiset(PageFilter(s, r.iPage))[r]
    decreases |s|
  {
    if s != [] {
      assert s == [s[0]] + s[1..];
      CountInPageFilter(s[1..], r);
    }
  }

  /** Keeping every page's rows makes the output a permutation of the
      input. */
  lemma FiltersMakePermutation(s: seq<Row>, t: seq<Row>)
    requires forall k :: PageFilter(s, k) == PageFilter(t, k)
    ensures multiset(s) == multiset(t)
  {
    forall r ensures multiset(s)[r] == multiset(t)[r] {
      CountInPageFilter(s, r);
      CountInPageFilter(t, r);
    }
  }

  lemma {:induction false} InPageFilter(s: seq<Row>, i: int)
    requires 0 <= i < |s|
    ensures PageFilter(s, s[i].iPage) != []
    decreases |s|
  {
    if i > 0 {
      InPageFilter(s[1..], i - 1);
    }
  }

  lemma {:induction false} PageFilterMember(s: seq<Row>, k: int)
    requires PageFilter(s, k) != []
    ensures exists i :: 0 <= i < |s| && s[i].iPage == k
    decreases |s|
  {
    if s[0].iPage != k {
      PageFilterMember(s[1..], k);
      var i :| 0 <= i < |s[1..]| && s[1..][i].iPage == k;
      assert s[i + 1].iPage == k;
    }
  }

  /** A sorted sequence that keeps every page's rows is unique: any stable
      sort by page, Python's included, gives the same rows as this one. */
  lemma {:induction false} StableSortIsUnique(s: seq<Row>, t: seq<Row>)
    requires SortedByPage(s) && SortedByPage(t)
    requires forall k :: PageFilter(s, k) == PageFilter(t, k)
    ensures s == t
    decreases |s|
  {
    if s == [] || t == [] {
      if t != [] {
        InPageFilter(t, 0);
        assert false;
      }
      if s != [] {
        InPageFilter(s, 0);
        assert false;
      }
    } else {
      SameFirstRow(s, t);
      SameTailFilters(s, t);
      StableSortIsUnique(s[1..], t[1..]);
      assert s == [s[0]] + s[1..];
      assert t == [t[0]] + t[1..];
    }
  }

  /** Two sorted sequences that keep the same rows of every page start
      with the same row: the first row of the smallest page. */
  lemma SameFirstRow(s: seq<Row>, t: seq<Row>)
    requires s != [] && t != []
    requires SortedByPage(s) && SortedByPage(t)
    requires forall k :: PageFilter(s, k) == PageFilter(t, k)
    ensures s[0] == t[0]
  {
    var m, n := s[0].iPage, t[0].iPage;
    InPageFilter(s, 0);
    InPageFilter(t, 0);
    assert PageFilter(t, m) != [] by {
      assert PageFilter(s, m) == PageFilter(t, m);
    }
    assert PageFilter(s, n) != [] by {
      assert PageFilter(s, n) == PageFilter(t, n);
    }
    PageFilterMember(t, m);
    PageFilterMember(s, n);
    var i :| 0 <= i < |t| && t[i].iPage == m;
    var j :| 0 <= j < |s| && s[j].iPage == n;
    assert n <= m by {
      if i > 0 {
        assert t[0].iPage <= t[i].iPage;
      }
    }
    assert m <= n by {
      if j > 0 {
        assert s[0].iPage <= s[j].iPage;
      }
    }
    assert PageFilter(s, m) == [s[0]] + PageFilter(s[1..], m);
    assert PageFilter(t, m) == [t[0]] + PageFilter(t[1..], m);
    assert PageFilter(s, m)[0] == s[0];
    assert PageFilter(t, m)[0] == t[0];
  }

  lemma SameTailFilters(s: seq<Row>, t: seq<Row>)
    requires s != [] && t != [] && s[0] == t[0]
    requires forall k :: PageFilter(s, k) == PageFilter(t, k)
    ensures forall k :: PageFilter(s[1..], k) == PageFilter(t[1..], k)
  {
    forall k ensures PageFilter(s[1..], k) == PageFilter(t[1..], k) {
      var head := if k == s[0].iPage then [s[0]] else [];
      assert PageFilter(s, k) == head + PageFilter(s[1..], k);
      assert PageFilter(t, k) == head + PageFilter(t[1..], k);
      assert (head + PageFilter(s[1..], k))[|head|..] == PageFilter(s[1..], k);
      assert (head + PageFilter(t[1..], k))[|head|..] == PageFilter(t[1..], k);
    }
  }

  /** The fetched rows: one per hit, a permutation of the mapped hits,
      sorted by page, hits of one page in search order. */
  lemma FetchedRowsArePermutation(raw: seq<RawHit>, rows: seq<Row>)
    requires forall k :: PageFilter(rows, k) == PageFilter(Processed(raw), k)
    ensures multiset(rows) == multiset(Processed(raw))
    ensures |rows| == |raw|
  {
    FiltersMakePermutation(rows, Processed(raw));
    assert |multiset(rows)| == |multiset(Processed(raw))|;
  }
}
