/** The registration table: the rows of one page (`updateTable`,
    csv-load/script.js:367-396), the page counter and the state of the two
    buttons (`updatePagination`, script.js:399-406), and where the two
    buttons move the current page (script.js:448-461). */
module Paging {
  import opened Text
  import opened Groups

  function Min(a: int, b: int): int {
    if a < b then a else b
  }

  /** `s.slice(start, end)` for non-negative arguments: both ends are cut
      down to the length, and the result is empty when `end <= start`. */
  function Slice<T>(s: seq<T>, start: nat, end: nat): (r: seq<T>)
    ensures start <= end ==> |r| <= end - start
    ensures start < end && start < |s| ==> |r| == Min(end, |s|) - start
    ensures start >= |s| || end <= start ==> r == []
    ensures forall i :: 0 <= i < |r| ==> start + i < |s| && r[i] == s[start + i]
  {
    var hi := Min(end, |s|);
    if start < hi then s[start..hi] else []
  }

  /** The items shown on page `page` (pages count from 1). */
  function PageRows<T>(items: seq<T>, page: int, size: int): (r: seq<T>)
    requires page >= 1 && size >= 1
    ensures |r| <= size
    ensures forall i :: 0 <= i < |r| ==> (page - 1) * size + i < |items| && r[i] == items[(page - 1) * size + i]
  {
    var start := (page - 1) * size;
    Slice(items, start, start + size)
  }

  /** `Math.ceil(n / size)`: the fewest pages of `size` items that hold `n`
      items; 0 when there are none. */
  function TotalPages(n: nat, size: int): (p: nat)
    requires size >= 1
    ensures p * size >= n
    ensures p > 0 ==> (p - 1) * size < n
  {
    var p := (n + size - 1) / size;
    assert p * size + (n + size - 1) % size == n + size - 1;
    p
  }

  lemma MulMonotone(a: int, b: int, size: int)
    requires a <= b && size >= 1
    ensures a * size <= b * size
  {
  }

  /** More items never need fewer pages. */
  lemma TotalPagesMonotone(a: nat, b: nat, size: int)
    requires a <= b && size >= 1
    ensures TotalPages(a, size) <= TotalPages(b, size)
  {
    var pa, pb := TotalPages(a, size), TotalPages(b, size);
    if pa > pb {
      MulMonotone(pb, pa - 1, size);
    }
  }

  /** Pages 1 to `p`, one after the other. */
  function Pages<T>(items: seq<T>, size: int, p: nat): seq<T>
    requires size >= 1
  {
    if p == 0 then [] else Pages(items, size, p - 1) + PageRows(items, p, size)
  }

  lemma {:induction false} PagesPrefix<T>(items: seq<T>, size: int, p: nat)
    requires size >= 1
    ensures Pages(items, size, p) == items[..Min(p * size, |items|)]
  {
    if p > 0 {
      PagesPrefix(items, size, p - 1);
      assert (p - 1) * size + size == p * size;
      MulMonotone(p - 1, p, size);
      var lo := Min((p - 1) * size, |items|);
      var hi := Min(p * size, |items|);
      assert items[..hi] == items[..lo] + items[lo..hi];
    }
  }

  /** The pages, read in order, hold every item exactly once and in order. */
  lemma PagesCover<T>(items: seq<T>, size: int)
    requires size >= 1
    ensures Pages(items, size, TotalPages(|items|, size)) == items
  {
    PagesPrefix(items, size, TotalPages(|items|, size));
  }

  /** A page has rows exactly when it is one of the first `TotalPages`. */
  lemma PageNonEmpty<T>(items: seq<T>, page: int, size: int)
    requires page >= 1 && size >= 1
    ensures PageRows(items, page, size) != [] <==> page <= TotalPages(|items|, size)
  {
    var p := TotalPages(|items|, size);
    if page <= p {
      MulMonotone(page - 1, p - 1, size);
    } else {
      MulMonotone(p, page - 1, size);
    }
  }

  /** The page counter and the disabled state of the two buttons. */
  datatype PageInfo = PageInfo(currentPage: int, totalPages: nat, prevDisabled: bool, nextDisabled: bool)

  /** `updatePagination(totalItems)`. */
  function Pagination(totalItems: nat, currentPage: int, size: int): (info: PageInfo)
    requires size >= 1
    ensures info.currentPage == currentPage && info.totalPages * size >= totalItems
  {
    var totalPages := TotalPages(totalItems, size);
    PageInfo(currentPage, totalPages, currentPage == 1, currentPage == totalPages)
  }

  /** On a page that has rows, "next" is disabled exactly when the page
      after it has none. */
  lemma NextDisabledIffLastPage<T>(items: seq<T>, page: int, size: int)
    requires size >= 1 && 1 <= page <= TotalPages(|items|, size)
    ensures Pagination(|items|, page, size).nextDisabled <==> PageRows(items, page + 1, size) == []
  {
    PageNonEmpty(items, page + 1, size);
  }

  /** With nothing to show there are 0 pages, and "next" stays enabled on
      page 1. */
  lemma EmptyTableNextEnabled(size: int)
    requires size >= 1
    ensures Pagination(0, 1, size) == PageInfo(1, 0, true, false)
  {
  }

  /** The "previous" button: back one page unless on the first. */
  function PrevPageOf(page: int): (p: int)
    ensures page >= 1 ==> p >= 1
    ensures p <= page
  {
    if page > 1 then page - 1 else page
  }

  /** The "next" button: forward one page while the page is below the page
      count of `rawCount` items, the number of records loaded and not the
      number of groups in the table. */
  function NextPageOf(page: int, rawCount: nat, size: int): (p: int)
    requires size >= 1
    ensures p == page || p == page + 1
    ensures p == page + 1 <==> page < TotalPages(rawCount, size)
  {
    if page < TotalPages(rawCount, size) then page + 1 else page
  }

  /** Once the page reaches the page count of the records, "next" stays
      put: with 30 records at 25 a page it stops on page 2. */
  lemma NextStopsAtRecordPages(page: int, rawCount: nat, size: int)
    requires size >= 1 && page >= TotalPages(rawCount, size)
    ensures NextPageOf(page, rawCount, size) == page
    ensures rawCount == 30 && size == 25 ==> NextPageOf(2, rawCount, size) == 2
  {
    if rawCount == 30 && size == 25 {
      assert TotalPages(30, 25) == 2;
    }
  }

  /** The "previous" handler moves exactly when its button is enabled. */
  lemma PrevMovesIffEnabled(totalItems: nat, page: int, size: int)
    requires page >= 1 && size >= 1
    ensures PrevPageOf(page) != page <==> !Pagination(totalItems, page, size).prevDisabled
  {
  }

  /** When there are at least as many records as groups (always so, as each
      group comes from at least one record), "next" reaches every page of
      the table. */
  lemma NextReachesEveryPage(groupCount: nat, rawCount: nat, page: int, size: int)
    requires groupCount <= rawCount && size >= 1
    requires 1 <= page < TotalPages(groupCount, size)
    ensures NextPageOf(page, rawCount, size) == page + 1
  {
    TotalPagesMonotone(groupCount, rawCount, size);
  }

  /** But it can also go past the table: once a search has left no group,
      "next" is enabled on page 1 and moves to page 2, which is empty. */
  lemma NextPassesTable(groups: seq<GroupStats>, rawCount: nat)
    requires groups == [] && rawCount == 30
    ensures !Pagination(|groups|, 1, 25).nextDisabled
    ensures NextPageOf(1, rawCount, 25) == 2
    ensures PageRows(groups, 2, 25) == []
  {
    assert TotalPages(30, 25) == 2;
  }

  /** One table row: the name, the clubs joined with an ideographic comma,
      the four counters, both school-level sums and the total. */
  datatype Row = Row(
    registrationName: string,
    clubs: string,
    boysElementary: int,
    girlsElementary: int,
    boysMiddle: int,
    girlsMiddle: int,
    elementary: int,
    middle: int,
    total: int)

  const ClubSeparator: char := '、'

  /** The `<tr>` of one group (script.js:378-392). */
  function RowOf(g: GroupStats): (row: Row)
    ensures g.Balanced() ==> row.elementary + row.middle == row.total
    ensures g.Balanced() ==> row.boysElementary + row.girlsElementary + row.boysMiddle + row.girlsMiddle == row.total
  {
    var generation := g.GenerationBreakdown();
    Row(g.registrationName, Join(g.dantaiList, [ClubSeparator]),
      g.boysElementary, g.girlsElementary, g.boysMiddle, g.girlsMiddle,
      generation.elementary, generation.middle, g.total)
  }

  /** The club column lists the clubs in order: splitting it on the
      separator gives `dantaiList` back when no club name contains it. */
  lemma RowClubs(g: GroupStats)
    requires g.dantaiList != []
    requires forall i :: 0 <= i < |g.dantaiList| ==> ClubSeparator !in g.dantaiList[i]
    ensures Split(RowOf(g).clubs, ClubSeparator) == g.dantaiList
  {
    SplitJoin(g.dantaiList, ClubSeparator);
  }

  /** What `updateTable` renders. */
  datatype TableView = TableView(rows: seq<Row>, info: PageInfo)

  function Table(groups: seq<GroupStats>, page: int, size: int): (t: TableView)
    requires page >= 1 && size >= 1
    ensures |t.rows| == |PageRows(groups, page, size)| <= size
    ensures forall i :: 0 <= i < |t.rows| ==> t.rows[i] == RowOf(PageRows(groups, page, size)[i])
    ensures t.info == Pagination(|groups|, page, size)
  {
    var pageData := PageRows(groups, page, size);
    TableView(seq(|pageData|, i requires 0 <= i < |pageData| => RowOf(pageData[i])),
      Pagination(|groups|, page, size))
  }
}
