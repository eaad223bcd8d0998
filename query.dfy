/** The listing behind the `home` and `bookmark_list` views (they are the same
    query): the requesting user's bookmarks, newest first, narrowed by an
    optional case-insensitive search on title or url, cut into pages of two. */
module Query {
  import opened Seqs
  import opened Text
  import opened Models
  import opened Paginator

  /** `Bookmark.objects.filter(user=...)`. */
  function OwnedBy(bs: seq<Bookmark>, user: UserId): seq<Bookmark>
  {
    Filter(bs, (b: Bookmark) => b.owner == user)
  }

  /** Non-increasing `added_time` along the sequence. */
  predicate NewestFirst(bs: seq<Bookmark>)
  {
    forall i, j :: 0 <= i < j < |bs| ==> bs[i].addedTime >= bs[j].addedTime
  }

  /** A bookmark at least as new as everything after it can head a
      newest-first sequence. */
  lemma ConsNewestFirst(x: Bookmark, rest: seq<Bookmark>)
    requires NewestFirst(rest)
    requires forall y :: y in rest ==> x.addedTime >= y.addedTime
    ensures NewestFirst([x] + rest)
  {
    var r := [x] + rest;
    forall i, j | 0 <= i < j < |r| ensures r[i].addedTime >= r[j].addedTime {
      assert r[j] == rest[j - 1];
      if i > 0 {
        assert r[i] == rest[i - 1];
      }
    }
  }

  lemma SliceNewestFirst(bs: seq<Bookmark>, lo: nat, hi: nat)
    requires NewestFirst(bs)
    requires lo <= hi <= |bs|
    ensures NewestFirst(bs[lo..hi])
  {
    var r := bs[lo..hi];
    forall i, j | 0 <= i < j < |r| ensures r[i].addedTime >= r[j].addedTime {
      assert r[i] == bs[lo + i] && r[j] == bs[lo + j];
    }
  }

  lemma HeadNewest(bs: seq<Bookmark>)
    requires NewestFirst(bs) && bs != []
    ensures forall y :: y in bs[1..] ==> bs[0].addedTime >= y.addedTime
  {
    forall y | y in bs[1..] ensures bs[0].addedTime >= y.addedTime {
      var k :| 0 <= k < |bs[1..]| && bs[1..][k] == y;
      assert y == bs[k + 1];
    }
  }

  function Insert(b: Bookmark, bs: seq<Bookmark>): (r: seq<Bookmark>)
    requires NewestFirst(bs)
    ensures NewestFirst(r)
    ensures multiset(r) == multiset(bs) + multiset{b}
  {
    if bs == [] then [b]
    else if b.addedTime >= bs[0].addedTime then
      assert NewestFirst([b] + bs) by {
        HeadNewest(bs);
        assert bs == [bs[0]] + bs[1..];
        ConsNewestFirst(b, bs);
      }
      [b] + bs
    else
      SliceNewestFirst(bs, 1, |bs|);
      var rest := Insert(b, bs[1..]);
      assert bs == [bs[0]] + bs[1..];
      assert NewestFirst([bs[0]] + rest) by {
        HeadNewest(bs);
        forall y | y in rest ensures bs[0].addedTime >= y.addedTime {
          assert y in multiset(rest);
          assert y == b || y in bs[1..];
        }
        ConsNewestFirst(bs[0], rest);
      }
      [bs[0]] + rest
  }

  /** `.order_by('-added_time')`: the same bookmarks, newest first. */
  function OrderNewestFirst(bs: seq<Bookmark>): (r: seq<Bookmark>)
    ensures NewestFirst(r)
    ensures multiset(r) == multiset(bs)
  {
    if bs == [] then []
    else
      assert bs == [bs[0]] + bs[1..];
      Insert(bs[0], OrderNewestFirst(bs[1..]))
  }

  /** Dropping elements from a newest-first sequence keeps it newest first. */
  lemma {:induction false} FilterKeepsOrder(bs: seq<Bookmark>, p: Bookmark -> bool)
    requires NewestFirst(bs)
    ensures NewestFirst(Filter(bs, p))
  {
    if bs != [] {
      SliceNewestFirst(bs, 1, |bs|);
      FilterKeepsOrder(bs[1..], p);
      var rest := Filter(bs[1..], p);
      HeadNewest(bs);
      if p(bs[0]) {
        ConsNewestFirst(bs[0], rest);
      }
    }
  }

  predicate TitleMatches(b: Bookmark, q: string) { ContainsIgnoreCase(b.title, q) }
  predicate UrlMatches(b: Bookmark, q: string) { ContainsIgnoreCase(b.url, q) }

  /** The OR of the two `icontains` filters. */
  predicate Matches(b: Bookmark, q: string)
  {
    TitleMatches(b, q) || UrlMatches(b, q)
  }

  /** The search step: an empty query applies no filter; otherwise the union
      of the title hits and the url hits, each bookmark at most once. */
  function Search(bs: seq<Bookmark>, q: string): (r: seq<Bookmark>)
    ensures q == "" ==> r == bs
    ensures q != "" ==> forall b :: b in r <==> b in bs && (TitleMatches(b, q) || UrlMatches(b, q))
    ensures forall b :: multiset(r)[b] <= multiset(bs)[b]
  {
    if q == "" then bs
    else
      FilterMultiset(bs, (b: Bookmark) => Matches(b, q));
      Filter(bs, (b: Bookmark) => Matches(b, q))
  }

  /** The two filters on their own, as the view writes them. */
  function TitleHits(bs: seq<Bookmark>, q: string): seq<Bookmark>
  {
    Filter(bs, (b: Bookmark) => TitleMatches(b, q))
  }

  function UrlHits(bs: seq<Bookmark>, q: string): seq<Bookmark>
  {
    Filter(bs, (b: Bookmark) => UrlMatches(b, q))
  }

  /** A non-empty search keeps exactly the bookmarks found by either filter
      (a union, not an intersection), each as often as it was stored. */
  lemma SearchIsUnion(bs: seq<Bookmark>, q: string)
    requires q != ""
    ensures forall b :: b in Search(bs, q) <==> b in TitleHits(bs, q) || b in UrlHits(bs, q)
    ensures forall b :: multiset(Search(bs, q))[b] ==
              if b in TitleHits(bs, q) || b in UrlHits(bs, q) then multiset(bs)[b] else 0
  {
    FilterMultiset(bs, (b: Bookmark) => Matches(b, q));
  }

  /** An empty query and a query that every bookmark matches give the same
      result: the search never drops a matching bookmark. */
  lemma SearchKeepsMatches(bs: seq<Bookmark>, q: string)
    requires forall b :: b in bs ==> Matches(b, q)
    ensures Search(bs, q) == bs
  {
    if q != "" {
      FilterAll(bs, (b: Bookmark) => Matches(b, q));
    }
  }

  /** The whole listing before pagination. */
  function Listing(bs: seq<Bookmark>, user: UserId, q: string): (r: seq<Bookmark>)
    ensures |r| <= |OwnedBy(bs, user)|
    ensures q == "" ==> |r| == |OwnedBy(bs, user)|
  {
    Search(OrderNewestFirst(OwnedBy(bs, user)), q)
  }

  /** A listed bookmark is a stored bookmark of the requesting user that
      matches the query, and every such bookmark is listed. */
  lemma ListingMembers(bs: seq<Bookmark>, user: UserId, q: string)
    ensures forall b :: b in Listing(bs, user, q) <==>
              b in bs && b.owner == user && (q == "" || Matches(b, q))
  {
    var owned := OwnedBy(bs, user);
    var ordered := OrderNewestFirst(owned);
    assert forall b :: b in ordered <==> b in owned by {
      forall b ensures b in ordered <==> b in owned {
        assert b in ordered <==> multiset(ordered)[b] > 0;
        assert b in owned <==> multiset(owned)[b] > 0;
      }
    }
  }

  /** The listing is newest first. */
  lemma ListingOrdered(bs: seq<Bookmark>, user: UserId, q: string)
    ensures NewestFirst(Listing(bs, user, q))
  {
    var ordered := OrderNewestFirst(OwnedBy(bs, user));
    if q != "" {
      FilterKeepsOrder(ordered, (b: Bookmark) => Matches(b, q));
    }
  }

  /** `home` / `bookmark_list`: the requested page of the listing. */
  function ListBookmarks(bs: seq<Bookmark>, user: UserId, q: string, req: PageRequest): (p: Page<Bookmark>)
    ensures p.numPages == NumPages(|Listing(bs, user, q)|)
    ensures p.number == PageNumber(req, p.numPages)
    ensures forall b :: b in p.items ==> b in Listing(bs, user, q)
  {
    GetPage(Listing(bs, user, q), req)
  }

  /** A page shows only the requesting user's matching bookmarks, newest
      first, and at most two of them. */
  lemma PageIsolated(bs: seq<Bookmark>, user: UserId, q: string, req: PageRequest)
    ensures var p := ListBookmarks(bs, user, q, req);
            && |p.items| <= PerPage
            && (forall b :: b in p.items ==> b in bs && b.owner == user && (q == "" || Matches(b, q)))
            && NewestFirst(p.items)
            && p.items == AllPages(Listing(bs, user, q))[p.number - 1]
            && p.number == PageNumber(req, NumPages(|Listing(bs, user, q)|))
  {
    var list := Listing(bs, user, q);
    var p := GetPage(list, req);
    ListingOrdered(bs, user, q);
    PageNewestFirst(list, req);
    ListingMembers(bs, user, q);
  }

  /** Any page of a newest-first list is itself newest first. */
  lemma PageNewestFirst(list: seq<Bookmark>, req: PageRequest)
    requires NewestFirst(list)
    ensures NewestFirst(GetPage(list, req).items)
  {
    var p := GetPage(list, req);
    SliceNewestFirst(list, PageStart(|list|, p.number), PageStart(|list|, p.number + 1));
  }

  /** Walking the pages in order yields the whole listing. */
  lemma ListingPaged(bs: seq<Bookmark>, user: UserId, q: string)
    ensures Concat(AllPages(Listing(bs, user, q))) == Listing(bs, user, q)
  {
    PagesPartition(Listing(bs, user, q));
  }

  /** Searching "git" over a bookmark titled "GitHub" and one at
      "https://github.com" finds both: one by title, one by url. */
  lemma SearchExample(a: Bookmark, b: Bookmark)
    requires a.title == "GitHub" && a.url == "https://x.com"
    requires b.title == "Docs" && b.url == "https://github.com"
    ensures Search([a, b], "git") == [a, b]
  {
    assert FoldCase("git") == "git";
    assert TitleMatches(a, "git") by {
      var t := FoldCase(a.title);
      assert t[0] == 'g' && t[1] == 'i' && t[2] == 't';
      assert "git" <= t;
    }
    assert UrlMatches(b, "git") by {
      var u := FoldCase(b.url);
      assert u[8] == 'g' && u[9] == 'i' && u[10] == 't';
      assert OccursAt(u, "git", 8);
      ContainsIff(u, "git");
    }
    SearchKeepsMatches([a, b], "git");
  }
}
