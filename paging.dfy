/** The two pagination strategies of the list queries, over a collection already filtered
    and in the order the query sorts it:
    - count-based: `skip = (page-1)*pageSize`, `.skip(skip).limit(pageSize)`, and
      `isNext = total > skip + returned`;
    - over-fetch: `.limit(pageSize + 1)` and `isNext = returned > pageSize`, with the
      list returned untrimmed.
    It also holds the `isNext` of the "popular" branch of `getAllTags`. */
module Paging {
  import opened Wrappers

  datatype Page<T> = Page(items: seq<T>, isNext: bool)

  function Skip(page: int, pageSize: int): int {
    (page - 1) * pageSize
  }

  /** `.skip(skip).limit(limit)` over the sorted matches. */
  function Window<T>(all: seq<T>, skip: nat, limit: nat): (r: seq<T>)
    ensures |r| <= limit
    ensures skip < |all| ==> |r| == if skip + limit < |all| then limit else |all| - skip
    ensures forall i :: 0 <= i < |r| ==> skip + i < |all| && r[i] == all[skip + i]
    ensures forall x :: x in r ==> x in all
  {
    if skip >= |all| then []
    else
      var r := all[skip .. if skip + limit < |all| then skip + limit else |all|];
      assert forall i :: 0 <= i < |r| ==> r[i] == all[skip + i];
      r
  }

  /** Count-based page: the matches from position `(page-1)*pageSize` on, as many as fit in a
      page; `isNext` compares the total count with what this page reaches. */
  function CountPage<T>(all: seq<T>, page: int, pageSize: int): (r: Page<T>)
    requires page >= 1 && pageSize >= 1
    ensures |r.items| <= pageSize
    ensures forall x :: x in r.items ==> x in all
    ensures Skip(page, pageSize) + |r.items| == if |all| <= Skip(page, pageSize) then Skip(page, pageSize)
                                                 else if |all| < Skip(page, pageSize) + pageSize then |all|
                                                 else Skip(page, pageSize) + pageSize
    ensures forall i :: 0 <= i < |r.items| ==> r.items[i] == all[Skip(page, pageSize) + i]
  {
    var skip := Skip(page, pageSize);
    var items := Window(all, skip, pageSize);
    Page(items, |all| > skip + |items|)
  }

  /** The count-based `isNext` means exactly that the next page is not empty. */
  lemma CountPageNext<T>(all: seq<T>, page: int, pageSize: int)
    requires page >= 1 && pageSize >= 1
    ensures CountPage(all, page, pageSize).isNext <==> |all| > page * pageSize
    ensures CountPage(all, page, pageSize).isNext <==> CountPage(all, page + 1, pageSize).items != []
  {
    assert Skip(page + 1, pageSize) == page * pageSize == Skip(page, pageSize) + pageSize;
  }

  /** The first `n` pages, one after the other. */
  function Pages<T>(all: seq<T>, pageSize: int, n: nat): seq<T>
    requires pageSize >= 1
  {
    if n == 0 then [] else Pages(all, pageSize, n - 1) + CountPage(all, n, pageSize).items
  }

  /** Count-based pages neither overlap nor leave gaps: the first `n` pages are exactly the
      first `n * pageSize` items. */
  lemma {:induction false} CountPagesCover<T>(all: seq<T>, pageSize: int, n: nat)
    requires pageSize >= 1
    ensures Pages(all, pageSize, n) == all[..if n * pageSize < |all| then n * pageSize else |all|]
  {
    if n > 0 {
      CountPagesCover(all, pageSize, n - 1);
      var skip := Skip(n, pageSize);
      SkipStep(n, pageSize);
      var items := CountPage(all, n, pageSize).items;
      if skip < |all| {
        var end := if skip + pageSize < |all| then skip + pageSize else |all|;
        assert items == all[skip..end];
        assert all[..skip] + all[skip..end] == all[..end];
      }
    }
  }

  /** Page `n` starts where the first `n - 1` pages end. */
  lemma SkipStep(n: nat, pageSize: int)
    requires n >= 1 && pageSize >= 1
    ensures Skip(n, pageSize) == (n - 1) * pageSize >= 0
    ensures n * pageSize == Skip(n, pageSize) + pageSize
  {
  }

  /** The worked example: 23 matches and pages of 10. */
  lemma CountPageExample<T>(all: seq<T>)
    requires |all| == 23
    ensures |CountPage(all, 1, 10).items| == 10 && CountPage(all, 1, 10).isNext
    ensures |CountPage(all, 3, 10).items| == 3 && !CountPage(all, 3, 10).isNext
    ensures CountPage(all, 4, 10).items == [] && !CountPage(all, 4, 10).isNext
  {
  }

  /** Over-fetch page as written: `pageSize + 1` items are fetched from position
      `(page-1)*pageSize` on and all of them returned. */
  function OverFetchPage<T>(all: seq<T>, page: int, pageSize: int): (r: Page<T>)
    requires page >= 1 && pageSize >= 1
    ensures |r.items| <= pageSize + 1
    ensures forall x :: x in r.items ==> x in all
    ensures Skip(page, pageSize) + |r.items| == if |all| <= Skip(page, pageSize) then Skip(page, pageSize)
                                                 else if |all| < Skip(page, pageSize) + pageSize + 1 then |all|
                                                 else Skip(page, pageSize) + pageSize + 1
    ensures forall i :: 0 <= i < |r.items| ==> r.items[i] == all[Skip(page, pageSize) + i]
  {
    var items := Window(all, Skip(page, pageSize), pageSize + 1);
    Page(items, |items| > pageSize)
  }

  /** The over-fetch flag is right (it agrees with the count-based one), but when there is a
      next page the extra item is shown here and again as the first item of the next page. */
  lemma OverFetchShowsNextPageItem<T>(all: seq<T>, page: int, pageSize: int)
    requires page >= 1 && pageSize >= 1
    ensures OverFetchPage(all, page, pageSize).isNext == CountPage(all, page, pageSize).isNext
    ensures OverFetchPage(all, page, pageSize).isNext ==>
              |OverFetchPage(all, page, pageSize).items| == pageSize + 1
              && OverFetchPage(all, page, pageSize).items[pageSize] == CountPage(all, page + 1, pageSize).items[0]
  {
    assert Skip(page + 1, pageSize) == Skip(page, pageSize) + pageSize;
  }

  /** Over-fetch page trimmed to `pageSize`, as the strategy intends. */
  function TrimmedOverFetchPage<T>(all: seq<T>, page: int, pageSize: int): (r: Page<T>)
    requires page >= 1 && pageSize >= 1
    ensures r == CountPage(all, page, pageSize)
  {
    var fetched := OverFetchPage(all, page, pageSize);
    var items := if |fetched.items| > pageSize then fetched.items[..pageSize] else fetched.items;
    assert items == CountPage(all, page, pageSize).items;
    Page(items, fetched.isNext)
  }

  /** `isNext` of the "popular" branch of `getAllTags`: the aggregated list, already skipped
      and limited to `pageSize`, is compared with `skip + pageSize`. */
  function PopularPage<T>(all: seq<T>, page: int, pageSize: int): (r: Page<T>)
    requires page >= 1 && pageSize >= 1
    ensures |r.items| <= pageSize
    ensures forall x :: x in r.items ==> x in all
  {
    var skip := Skip(page, pageSize);
    var aggregated := Window(all, skip, pageSize);
    Page(aggregated, |aggregated| > skip + pageSize)
  }

  /** The popular branch never reports a next page, even when there is one. */
  lemma PopularPageNeverNext<T>(all: seq<T>, page: int, pageSize: int)
    requires page >= 1 && pageSize >= 1
    ensures !PopularPage(all, page, pageSize).isNext
    ensures PopularPage(all, page, pageSize).items == CountPage(all, page, pageSize).items
  {
    assert Skip(page, pageSize) >= 0;
  }
}
