/** Django's `Paginator` with the defaults the views rely on (no orphans, an
    empty first page allowed) and the page size of 2 they pass, together with
    `get_page`, which never fails: a page number that is not an integer
    yields the first page and one out of range yields the last. */
module Paginator {
  import opened Seqs

  /** `Paginator(bookmarks, 2)`. */
  const PerPage: nat := 2

  /** The `page` query parameter after Python's `int()`: either a whole
      number or something `int()` refuses (absent, empty, not numeric). */
  datatype PageRequest = NotAnInteger | Number(n: int)

  datatype Page<T> = Page(items: seq<T>, number: nat, numPages: nat)
  {
    predicate HasNext() { number < numPages }
    predicate HasPrevious() { number > 1 }
  }

  /** `num_pages`: the fewest pages of `PerPage` items that hold `count`
      items, and never fewer than one. */
  function NumPages(count: nat): (n: nat)
    ensures n >= 1
    ensures count <= n * PerPage
    ensures n == 1 || (n - 1) * PerPage < count
  {
    var hits := if count > 1 then count else 1;
    (hits + PerPage - 1) / PerPage
  }

  /** `get_page`'s choice of page number. */
  function PageNumber(req: PageRequest, numPages: nat): (k: nat)
    requires numPages >= 1
    ensures 1 <= k <= numPages
    ensures req.Number? && 1 <= req.n <= numPages ==> k == req.n
    ensures req.NotAnInteger? ==> k == 1
    ensures req.Number? && (req.n < 1 || req.n > numPages) ==> k == numPages
  {
    match req
    case NotAnInteger => 1
    case Number(n) => if 1 <= n <= numPages then n else numPages
  }

  /** The first index of page `k` (1-based), cut off at the end of the list. */
  function PageStart(count: nat, k: nat): (i: nat)
    ensures i <= count
  {
    if k == 0 then 0
    else if (k - 1) * PerPage <= count then (k - 1) * PerPage else count
  }

  /** `page(k).object_list`: the slice from the page's first index to the
      next page's first index. */
  function PageItems<T>(list: seq<T>, k: nat): (r: seq<T>)
    requires 1 <= k <= NumPages(|list|)
    ensures |r| <= PerPage
    ensures list != [] ==> r != []
    ensures PageStart(|list|, k) <= PageStart(|list|, k + 1) <= |list|
    ensures r == list[PageStart(|list|, k)..PageStart(|list|, k + 1)]
  {
    var bottom := (k - 1) * PerPage;
    var top := if bottom + PerPage >= |list| then |list| else bottom + PerPage;
    list[bottom..top]
  }

  function GetPage<T>(list: seq<T>, req: PageRequest): (p: Page<T>)
    ensures p.numPages == NumPages(|list|)
    ensures p.number == PageNumber(req, p.numPages)
    ensures 1 <= p.number <= p.numPages
    ensures |p.items| <= PerPage
    ensures PageStart(|list|, p.number) <= PageStart(|list|, p.number + 1) <= |list|
    ensures p.items == list[PageStart(|list|, p.number)..PageStart(|list|, p.number + 1)]
    ensures p.items == AllPages(list)[p.number - 1]
    ensures forall x :: x in p.items ==> x in list
  {
    var n := NumPages(|list|);
    var k := PageNumber(req, n);
    Page(PageItems(list, k), k, n)
  }

  /** Every page of the list, in order. */
  function AllPages<T>(list: seq<T>): (r: seq<seq<T>>)
    ensures |r| == NumPages(|list|)
    ensures list != [] ==> forall i :: 0 <= i < |r| ==> 0 < |r[i]| <= PerPage
  {
    var n := NumPages(|list|);
    seq(n, i requires 0 <= i < n => PageItems(list, i + 1))
  }

  /** The pages from `j` on are page `j + 1` followed by the pages after it. */
  lemma PagesCons<T>(list: seq<T>, j: nat)
    requires j < NumPages(|list|)
    ensures Concat(AllPages(list)[j..]) == PageItems(list, j + 1) + Concat(AllPages(list)[j + 1..])
  {
    var pages := AllPages(list);
    assert pages[j..][0] == pages[j];
    assert pages[j..][1..] == pages[j + 1..];
  }

  lemma {:induction false} PagesFrom<T>(list: seq<T>, j: nat)
    requires j <= NumPages(|list|)
    ensures Concat(AllPages(list)[j..]) == list[PageStart(|list|, j + 1)..]
    decreases NumPages(|list|) - j
  {
    var n := NumPages(|list|);
    var pages := AllPages(list);
    if j == n {
      assert pages[j..] == [];
    } else {
      PagesFrom(list, j + 1);
      PagesCons(list, j);
      var start := PageStart(|list|, j + 1);
      var next := PageStart(|list|, j + 2);
      assert list[start..] == list[start..next] + list[next..];
    }
  }

  /** The pages, taken in order, put the whole list back together, and none
      holds more than `PerPage` items. */
  lemma PagesPartition<T>(list: seq<T>)
    ensures Concat(AllPages(list)) == list
    ensures forall p :: p in AllPages(list) ==> |p| <= PerPage
  {
    PagesFrom(list, 0);
    assert AllPages(list)[0..] == AllPages(list);
  }

  /** Five items, page 10 requested: the third and last page, holding the
      fifth item alone. */
  lemma OutOfRangeExample<T>(list: seq<T>)
    requires |list| == 5
    ensures var p := GetPage(list, Number(10));
            p.number == 3 && p.items == [list[4]] && !p.HasNext() && p.HasPrevious()
  {
    assert NumPages(5) == 3;
  }
}
