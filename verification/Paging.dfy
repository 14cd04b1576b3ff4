/** One page of a list; integers do not overflow. */
module Paging {
  datatype Page<T> = Page(items: seq<T>, page: nat, limit: nat, total: nat, totalPages: nat)

  function PageNumber(page: int): nat {
    if page < 1 then 1 else page
  }

  /** The page size asked for, at most 200, or the fallback. */
  function PageLimit(limit: int, fallback: nat): (n: nat)
    requires fallback > 0
    ensures n > 0
  {
    if limit <= 0 then fallback else if limit > 200 then 200 else limit
  }

  function Capped(n: nat, total: nat): (m: nat)
    ensures m <= total
  {
    if n > total then total else n
  }

  function PageOf<T>(items: seq<T>, page: nat, limit: nat): seq<T>
    requires page > 0
  {
    var start := Capped((page - 1) * limit, |items|);
    items[start..Capped(start + limit, |items|)]
  }

  function TotalPages(total: nat, limit: nat): nat
    requires limit > 0
  {
    if total > 0 then (total + limit - 1) / limit else 0
  }

  function FirstPages<T>(items: seq<T>, limit: nat, n: nat): seq<T> {
    if n == 0 then [] else FirstPages(items, limit, n - 1) + PageOf(items, n, limit)
  }

  lemma PageStarts(limit: nat, n: nat)
    requires n > 0
    ensures n * limit == (n - 1) * limit + limit
  {
  }

  lemma {:induction false} FirstPagesArePrefix<T>(items: seq<T>, limit: nat, n: nat)
    ensures FirstPages(items, limit, n) == items[..Capped(n * limit, |items|)]
  {
    if n > 0 {
      FirstPagesArePrefix(items, limit, n - 1);
      PageStarts(limit, n);
      var start := Capped((n - 1) * limit, |items|);
      var end := Capped(n * limit, |items|);
      assert PageOf(items, n, limit) == items[start..end];
      assert items[..start] + items[start..end] == items[..end];
    }
  }

  lemma PageCount(total: nat, limit: nat, page: nat)
    requires limit > 0 && page > 0
    ensures (page - 1) * limit < total <==> page <= TotalPages(total, limit)
    ensures TotalPages(total, limit) * limit >= total
  {
    var pages := TotalPages(total, limit);
    if total > 0 {
      assert pages * limit <= total + limit - 1 < (pages + 1) * limit;
      PageStarts(limit, pages + 1);
      if page <= pages {
        Scaled(page - 1, pages - 1, limit);
        PageStarts(limit, pages);
      } else {
        Scaled(pages, page - 1, limit);
      }
    } else {
      Scaled(0, page - 1, limit);
    }
  }

  lemma Scaled(a: int, b: int, limit: nat)
    requires a <= b
    ensures a * limit <= b * limit
  {
  }

  /** The pages up to the last are not empty and make up the whole list; the others are empty. */
  lemma PagesPartition<T>(items: seq<T>, limit: nat, page: nat)
    requires limit > 0 && page > 0
    ensures FirstPages(items, limit, TotalPages(|items|, limit)) == items
    ensures PageOf(items, page, limit) != [] <==> page <= TotalPages(|items|, limit)
    ensures |PageOf(items, page, limit)| <= limit
    ensures page < TotalPages(|items|, limit) ==> |PageOf(items, page, limit)| == limit
  {
    var pages := TotalPages(|items|, limit);
    FirstPagesArePrefix(items, limit, pages);
    PageCount(|items|, limit, page);
    PageCount(|items|, limit, page + 1);
    PageStarts(limit, page);
    assert items[..|items|] == items;
  }

  method CutPage<T>(items: seq<T>, page: nat, limit: nat) returns (r: Page<T>)
    requires page > 0 && limit > 0
    ensures r == Page(PageOf(items, page, limit), page, limit, |items|, TotalPages(|items|, limit))
  {
    var total := |items|;
    var start := (page - 1) * limit;
    if start > total {
      start := total;
    }
    var end := start + limit;
    if end > total {
      end := total;
    }
    var totalPages := 0;
    if total > 0 {
      totalPages := (total + limit - 1) / limit;
    }
    r := Page(items[start..end], page, limit, total, totalPages);
  }
}
