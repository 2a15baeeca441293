/** What a run of the "fetch pages until max" loop is, stated over an abstract
    fetcher from a page number to a decoded page or an error: page 1 first, then
    the `next` page of the last response while fewer than `maxResults` items have
    been collected; the first error ends the search with no results; otherwise
    the collected items, in fetch order, cut to `maxResults`. */
module Pagination {
  import opened Wrappers
  import opened LibbyResponse

  /** One page request at the fixed page size, from its page number to its outcome. */
  type Fetch = int -> Result<SearchResponse, SearchError>

  type Items = seq<SearchResponseItem>

  /** The items of the pages, page after page, each page in its own order. */
  function Concat(pages: seq<SearchResponse>): Items
  {
    if pages == [] then [] else Concat(pages[..|pages| - 1]) + pages[|pages| - 1].items
  }

  /** The loop's condition for fetching another page. */
  predicate Continues(count: int, maxResults: int, links: SearchResponseLinks)
  {
    count < maxResults && links.next.Some?
  }

  /** The final cut: at most `maxResults` items, the first ones, unchanged when
      they already fit. */
  function Truncate(results: Items, maxResults: int): (r: Items)
    requires maxResults >= 0
    ensures |r| == if |results| < maxResults then |results| else maxResults
    ensures r == results[..|r|]
    ensures |results| <= maxResults ==> r == results
  {
    if |results| == maxResults then results
    else if |results| > maxResults then results[..maxResults]
    else results
  }

  // ---------------------------------------------------------------------------
  // Termination

  /** From a state with `count` items collected and the last response's `links`,
      the loop makes at most `k` further fetches before it stops. */
  ghost predicate StopsWithin(fetch: Fetch, maxResults: int, count: int, links: SearchResponseLinks, k: nat)
    decreases k
  {
    Continues(count, maxResults, links) ==>
      k > 0 &&
      var p := fetch(links.next.value.page);
      p.Success? ==> StopsWithin(fetch, maxResults, count + |p.value.items|, p.value.links, k - 1)
  }

  /** The whole search makes at most `k` fetches after the first one. */
  ghost predicate SearchStops(fetch: Fetch, maxResults: int, k: nat)
  {
    fetch(1).Success? ==> StopsWithin(fetch, maxResults, |fetch(1).value.items|, fetch(1).value.links, k)
  }

  /** Every `next` link points forward from the page it came with, and no further
      than `bound`. */
  ghost predicate ForwardLinksBounded(fetch: Fetch, bound: int)
  {
    forall n :: fetch(n).Success? && fetch(n).value.links.next.Some? ==>
      n < fetch(n).value.links.next.value.page <= bound
  }

  lemma {:induction false} ChainStops(fetch: Fetch, maxResults: int, bound: int, count: int, p: int, k: nat)
    requires ForwardLinksBounded(fetch, bound)
    requires fetch(p).Success?
    requires k >= bound - p
    ensures StopsWithin(fetch, maxResults, count, fetch(p).value.links, k)
    decreases k
  {
    var links := fetch(p).value.links;
    if Continues(count, maxResults, links) {
      var m := links.next.value.page;
      var next := fetch(m);
      if next.Success? {
        ChainStops(fetch, maxResults, bound, count + |next.value.items|, m, k - 1);
      }
    }
  }

  /** A catalog whose `next` links only point forward, up to some last page, lets
      the search stop: the loop cannot run past `bound` pages. */
  lemma IncreasingChainStops(fetch: Fetch, maxResults: int, bound: nat)
    requires ForwardLinksBounded(fetch, bound)
    ensures SearchStops(fetch, maxResults, bound)
  {
    if fetch(1).Success? {
      ChainStops(fetch, maxResults, bound, |fetch(1).value.items|, 1, bound);
    }
  }

  // ---------------------------------------------------------------------------
  // Runs

  /** The pages requested: page 1 first, then each time the `next` page of the
      most recent response. There is one more request than responses exactly
      when the last request failed. */
  ghost predicate FollowsLinks(pageNums: seq<int>, pages: seq<SearchResponse>)
  {
    && |pageNums| >= 1 && pageNums[0] == 1
    && |pageNums| - 1 <= |pages| <= |pageNums|
    && forall i :: 1 <= i < |pageNums| ==> pages[i - 1].links.next == Some(PageInfo(pageNums[i]))
  }

  /** Each recorded response is what the fetch returned for the page requested. */
  ghost predicate Fetched(fetch: Fetch, pageNums: seq<int>, pages: seq<SearchResponse>)
    requires |pages| <= |pageNums|
  {
    forall i {:trigger fetch(pageNums[i])} :: 0 <= i < |pages| ==> fetch(pageNums[i]) == Success(pages[i])
  }

  /** Another page was requested only while fewer than `maxResults` items had been
      collected and the last response had a `next` link. */
  ghost predicate ContinuedOnlyWhenAllowed(maxResults: int, pageNums: seq<int>, pages: seq<SearchResponse>)
    requires |pageNums| - 1 <= |pages|
  {
    forall i :: 1 <= i < |pageNums| ==> Continues(|Concat(pages[..i])|, maxResults, pages[i - 1].links)
  }

  /** `pageNums` were requested, `pages` came back, and the search ended with `r`:
      with the error of the last request if it failed, and otherwise, once the loop
      condition no longer held, with the collected items cut to `maxResults`. */
  ghost predicate IsRun(fetch: Fetch, maxResults: int, pageNums: seq<int>, pages: seq<SearchResponse>,
                        r: Result<Items, SearchError>)
  {
    && maxResults >= 0
    && FollowsLinks(pageNums, pages)
    && Fetched(fetch, pageNums, pages)
    && ContinuedOnlyWhenAllowed(maxResults, pageNums, pages)
    && if |pages| < |pageNums| then
         fetch(pageNums[|pageNums| - 1]).Failure? && r == Failure(fetch(pageNums[|pageNums| - 1]).error)
       else
         !Continues(|Concat(pages)|, maxResults, pages[|pages| - 1].links)
         && r == Success(Truncate(Concat(pages), maxResults))
  }

  /** The first requests of a run that is still going: every request so far
      succeeded. */
  ghost predicate RunSoFar(fetch: Fetch, maxResults: int, pageNums: seq<int>, pages: seq<SearchResponse>)
  {
    && maxResults >= 0
    && |pageNums| == |pages|
    && FollowsLinks(pageNums, pages)
    && Fetched(fetch, pageNums, pages)
    && ContinuedOnlyWhenAllowed(maxResults, pageNums, pages)
  }

  lemma FirstPageFails(fetch: Fetch, maxResults: int)
    requires maxResults >= 0 && fetch(1).Failure?
    ensures IsRun(fetch, maxResults, [1], [], Failure(fetch(1).error))
  {
  }

  lemma FirstPage(fetch: Fetch, maxResults: int)
    requires maxResults >= 0 && fetch(1).Success?
    ensures RunSoFar(fetch, maxResults, [1], [fetch(1).value])
    ensures Concat([fetch(1).value]) == fetch(1).value.items
  {
    assert [fetch(1).value][..0] == [];
  }

  /** Requesting the `next` page of the last response keeps the requests
      following the links, whether or not a response is then recorded. */
  lemma FollowNext(pageNums: seq<int>, pages: seq<SearchResponse>, extra: seq<SearchResponse>)
    requires FollowsLinks(pageNums, pages) && |pageNums| == |pages|
    requires pages[|pages| - 1].links.next.Some?
    requires |extra| <= 1
    ensures FollowsLinks(pageNums + [pages[|pages| - 1].links.next.value.page], pages + extra)
  {
    var n := pages[|pages| - 1].links.next.value.page;
    var ns, ps := pageNums + [n], pages + extra;
    forall i | 1 <= i < |ns|
      ensures ps[i - 1].links.next == Some(PageInfo(ns[i]))
    {
      assert ps[i - 1] == pages[i - 1];
      if i < |pageNums| {
        assert ns[i] == pageNums[i];
      }
    }
  }

  lemma NextPage(fetch: Fetch, maxResults: int, pageNums: seq<int>, pages: seq<SearchResponse>)
    requires RunSoFar(fetch, maxResults, pageNums, pages)
    requires Continues(|Concat(pages)|, maxResults, pages[|pages| - 1].links)
    requires fetch(pages[|pages| - 1].links.next.value.page).Success?
    ensures var n := pages[|pages| - 1].links.next.value.page;
            RunSoFar(fetch, maxResults, pageNums + [n], pages + [fetch(n).value])
            && Concat(pages + [fetch(n).value]) == Concat(pages) + fetch(n).value.items
  {
    var n := pages[|pages| - 1].links.next.value.page;
    var pages' := pages + [fetch(n).value];
    FollowNext(pageNums, pages, [fetch(n).value]);
    assert pages'[..|pages'| - 1] == pages;
    forall i | 1 <= i < |pageNums| + 1
      ensures Continues(|Concat(pages'[..i])|, maxResults, pages'[i - 1].links)
    {
      if i < |pageNums| {
        assert pages'[..i] == pages[..i];
      } else {
        assert pages'[..i] == pages;
      }
    }
  }

  lemma NextPageFails(fetch: Fetch, maxResults: int, pageNums: seq<int>, pages: seq<SearchResponse>)
    requires RunSoFar(fetch, maxResults, pageNums, pages)
    requires Continues(|Concat(pages)|, maxResults, pages[|pages| - 1].links)
    requires fetch(pages[|pages| - 1].links.next.value.page).Failure?
    ensures var n := pages[|pages| - 1].links.next.value.page;
            IsRun(fetch, maxResults, pageNums + [n], pages, Failure(fetch(n).error))
  {
    FollowNext(pageNums, pages, []);
    assert pages + [] == pages;
    assert pages[..|pages|] == pages;
  }

  lemma RunEnds(fetch: Fetch, maxResults: int, pageNums: seq<int>, pages: seq<SearchResponse>)
    requires RunSoFar(fetch, maxResults, pageNums, pages)
    requires !Continues(|Concat(pages)|, maxResults, pages[|pages| - 1].links)
    ensures IsRun(fetch, maxResults, pageNums, pages, Success(Truncate(Concat(pages), maxResults)))
  {
  }

  lemma {:induction false} RunsAgree(fetch: Fetch, n1: seq<int>, p1: seq<SearchResponse>,
                                     n2: seq<int>, p2: seq<SearchResponse>, i: nat)
    requires FollowsLinks(n1, p1) && Fetched(fetch, n1, p1)
    requires FollowsLinks(n2, p2) && Fetched(fetch, n2, p2)
    requires i < |n1| && i < |n2|
    ensures forall j :: 0 <= j <= i ==> n1[j] == n2[j]
    ensures forall j :: 0 <= j < i ==> p1[j] == p2[j]
  {
    if i > 0 {
      RunsAgree(fetch, n1, p1, n2, p2, i - 1);
      assert fetch(n1[i - 1]) == Success(p1[i - 1]) && fetch(n2[i - 1]) == Success(p2[i - 1]);
    }
  }

  /** Where one run made its last request, another run of the same fetcher that
      has got that far asked for the same page; if that page came back to it, the
      first run collected the same pages. */
  lemma LastRequestAgrees(fetch: Fetch, maxResults: int,
                          n1: seq<int>, p1: seq<SearchResponse>, r1: Result<Items, SearchError>,
                          n2: seq<int>, p2: seq<SearchResponse>, r2: Result<Items, SearchError>)
    requires IsRun(fetch, maxResults, n1, p1, r1) && IsRun(fetch, maxResults, n2, p2, r2)
    requires |n1| <= |n2|
    ensures n1 == n2[..|n1|]
    ensures |n1| <= |p2| ==> p1 == p2[..|n1|]
  {
    var k := |n1| - 1;
    RunsAgree(fetch, n1, p1, n2, p2, k);
    if k < |p2| {
      assert fetch(n2[k]) == Success(p2[k]);
      assert |p1| == |n1|;
      assert p1[k] == p2[k];
    }
  }

  lemma RunNotShorter(fetch: Fetch, maxResults: int,
                      n1: seq<int>, p1: seq<SearchResponse>, r1: Result<Items, SearchError>,
                      n2: seq<int>, p2: seq<SearchResponse>, r2: Result<Items, SearchError>)
    requires IsRun(fetch, maxResults, n1, p1, r1) && IsRun(fetch, maxResults, n2, p2, r2)
    ensures |n1| >= |n2|
  {
    var k := |n1| - 1;
    if k < |n2| {
      LastRequestAgrees(fetch, maxResults, n1, p1, r1, n2, p2, r2);
    }
  }

  /** A run is determined by the fetcher and `maxResults`: the same requests, the
      same responses and the same outcome. */
  lemma RunDeterministic(fetch: Fetch, maxResults: int,
                         n1: seq<int>, p1: seq<SearchResponse>, r1: Result<Items, SearchError>,
                         n2: seq<int>, p2: seq<SearchResponse>, r2: Result<Items, SearchError>)
    requires IsRun(fetch, maxResults, n1, p1, r1) && IsRun(fetch, maxResults, n2, p2, r2)
    ensures n1 == n2 && p1 == p2 && r1 == r2
  {
    RunNotShorter(fetch, maxResults, n1, p1, r1, n2, p2, r2);
    RunNotShorter(fetch, maxResults, n2, p2, r2, n1, p1, r1);
    var k := |n1| - 1;
    RunsAgree(fetch, n1, p1, n2, p2, k);
    assert n1 == n2;
    if fetch(n1[k]).Success? {
      assert |p1| == |n1| && |p2| == |n1|;
      assert p1[k] == p2[k];
      assert p1 == p2;
    } else {
      assert |p1| == k && |p2| == k;
      assert p1 == p2;
    }
  }

  /** A failed page fetch ends the search: it was the last request, and the
      search returns its error and none of the items already collected. */
  lemma ErrorAbortsSearch(fetch: Fetch, maxResults: int, pageNums: seq<int>, pages: seq<SearchResponse>,
                          r: Result<Items, SearchError>, i: int)
    requires IsRun(fetch, maxResults, pageNums, pages, r)
    requires 0 <= i < |pageNums| && fetch(pageNums[i]).Failure?
    ensures i == |pageNums| - 1 && |pages| == i
    ensures r == Failure(fetch(pageNums[i]).error)
  {
  }

  /** A successful search returns at most `maxResults` items, the first ones in
      fetch order, and stopped either because enough items had been collected or
      because the last page had no `next` link. */
  lemma SuccessfulRun(fetch: Fetch, maxResults: int, pageNums: seq<int>, pages: seq<SearchResponse>,
                      items: Items)
    requires IsRun(fetch, maxResults, pageNums, pages, Success(items))
    ensures |pages| == |pageNums|
    ensures |items| <= maxResults && items == Concat(pages)[..|items|]
    ensures |Concat(pages)| >= maxResults || pages[|pages| - 1].links.next.None?
    ensures |Concat(pages)| <= maxResults ==> items == Concat(pages)
  {
  }

  // ---------------------------------------------------------------------------
  // The outcome as a function

  /** The outcome of the loop from a state with `results` collected and the last
      response's `links`: fetch the `next` page while the loop condition holds,
      fail with the first error, and cut the items to `maxResults` at the end. */
  ghost function Remaining(fetch: Fetch, maxResults: int, results: Items, links: SearchResponseLinks, k: nat)
    : Result<Items, SearchError>
    requires maxResults >= 0
    requires StopsWithin(fetch, maxResults, |results|, links, k)
    decreases k
  {
    if Continues(|results|, maxResults, links) then
      match fetch(links.next.value.page)
      case Failure(e) => Failure(e)
      case Success(page) => Remaining(fetch, maxResults, results + page.items, page.links, k - 1)
    else Success(Truncate(results, maxResults))
  }

  /** The outcome of a whole search: page 1, then `Remaining`. */
  ghost function Outcome(fetch: Fetch, maxResults: int, k: nat): Result<Items, SearchError>
    requires maxResults >= 0
    requires SearchStops(fetch, maxResults, k)
  {
    match fetch(1)
    case Failure(e) => Failure(e)
    case Success(page) => Remaining(fetch, maxResults, page.items, page.links, k)
  }

  /** The bound only makes the outcome well defined: any two bounds under which
      the loop stops give the same outcome. */
  lemma {:induction false} RemainingFuel(fetch: Fetch, maxResults: int, results: Items,
                                         links: SearchResponseLinks, k1: nat, k2: nat)
    requires maxResults >= 0
    requires StopsWithin(fetch, maxResults, |results|, links, k1)
    requires StopsWithin(fetch, maxResults, |results|, links, k2)
    ensures Remaining(fetch, maxResults, results, links, k1) == Remaining(fetch, maxResults, results, links, k2)
    decreases k1
  {
    if Continues(|results|, maxResults, links) {
      var p := fetch(links.next.value.page);
      if p.Success? {
        RemainingFuel(fetch, maxResults, results + p.value.items, p.value.links, k1 - 1, k2 - 1);
      }
    }
  }

  lemma OutcomeFuel(fetch: Fetch, maxResults: int, k1: nat, k2: nat)
    requires maxResults >= 0
    requires SearchStops(fetch, maxResults, k1) && SearchStops(fetch, maxResults, k2)
    ensures Outcome(fetch, maxResults, k1) == Outcome(fetch, maxResults, k2)
  {
    if fetch(1).Success? {
      RemainingFuel(fetch, maxResults, fetch(1).value.items, fetch(1).value.links, k1, k2);
    }
  }

  /** From the state after `j` pages of a run, `Remaining` gives the run's result. */
  lemma {:induction false} RunRemaining(fetch: Fetch, maxResults: int, pageNums: seq<int>,
                                        pages: seq<SearchResponse>, r: Result<Items, SearchError>, j: nat, k: nat)
    requires IsRun(fetch, maxResults, pageNums, pages, r)
    requires 1 <= j <= |pages|
    requires StopsWithin(fetch, maxResults, |Concat(pages[..j])|, pages[j - 1].links, k)
    ensures Remaining(fetch, maxResults, Concat(pages[..j]), pages[j - 1].links, k) == r
    decreases |pages| - j
  {
    var results, links := Concat(pages[..j]), pages[j - 1].links;
    if j < |pageNums| {
      assert Continues(|Concat(pages[..j])|, maxResults, pages[j - 1].links);
      assert links.next == Some(PageInfo(pageNums[j]));
      if j < |pages| {
        assert fetch(pageNums[j]) == Success(pages[j]);
        assert pages[..j + 1][..j] == pages[..j];
        RunRemaining(fetch, maxResults, pageNums, pages, r, j + 1, k - 1);
      }
    } else {
      assert pages[..j] == pages;
    }
  }

  /** Every run ends with the outcome the function computes. */
  lemma RunOutcome(fetch: Fetch, maxResults: int, pageNums: seq<int>, pages: seq<SearchResponse>,
                   r: Result<Items, SearchError>, k: nat)
    requires IsRun(fetch, maxResults, pageNums, pages, r)
    requires SearchStops(fetch, maxResults, k)
    ensures r == Outcome(fetch, maxResults, k)
  {
    if |pages| > 0 {
      assert fetch(pageNums[0]) == Success(pages[0]);
      assert pages[..1] == [pages[0]];
      assert Concat([pages[0]]) == pages[0].items by {
        assert [pages[0]][..0] == [];
      }
      RunRemaining(fetch, maxResults, pageNums, pages, r, 1, k);
    }
  }

  /** A first page with no `next` link and no more than `maxResults` items is the
      whole answer: nothing else is requested and its items come back as they are. */
  lemma SinglePageSource(fetch: Fetch, maxResults: int, pageNums: seq<int>, pages: seq<SearchResponse>,
                         r: Result<Items, SearchError>)
    requires IsRun(fetch, maxResults, pageNums, pages, r)
    requires fetch(1).Success? && fetch(1).value.links.next.None?
    requires |fetch(1).value.items| <= maxResults
    ensures pageNums == [1] && pages == [fetch(1).value]
    ensures r == Success(fetch(1).value.items)
  {
    assert |pages| >= 1;
    assert fetch(pageNums[0]) == Success(pages[0]);
    assert pages[..1] == [pages[0]];
    assert Concat([pages[0]]) == pages[0].items by {
      assert [pages[0]][..0] == [];
    }
    assert |pageNums| == 1;
    assert pages == pages[..1];
  }

  /** A first page that links to a last page, with fewer than `maxResults` items
      on the first and no more than `maxResults` on both: the two pages are read
      and their items come back, the first page's before the second's. */
  lemma TwoPageSource(fetch: Fetch, maxResults: int, pageNums: seq<int>, pages: seq<SearchResponse>,
                      r: Result<Items, SearchError>)
    requires IsRun(fetch, maxResults, pageNums, pages, r)
    requires fetch(1).Success? && fetch(1).value.links.next.Some?
    requires var m := fetch(1).value.links.next.value.page;
             fetch(m).Success? && fetch(m).value.links.next.None?
             && |fetch(1).value.items| < maxResults
             && |fetch(1).value.items| + |fetch(m).value.items| <= maxResults
    ensures var m := fetch(1).value.links.next.value.page;
            pageNums == [1, m]
            && r == Success(fetch(1).value.items + fetch(m).value.items)
  {
    var m := fetch(1).value.links.next.value.page;
    var p1, p2 := fetch(1).value, fetch(m).value;
    assert |pages| >= 1 && pages[0] == p1 by {
      assert fetch(pageNums[0]) == Success(pages[0]);
    }
    assert Concat(pages[..1]) == p1.items by {
      assert pages[..1] == [p1];
      assert [p1][..0] == [];
    }
    assert |pageNums| >= 2 && pageNums[1] == m;
    assert |pages| >= 2 && pages[1] == p2 by {
      assert fetch(pageNums[1]) == Success(pages[1]);
    }
    assert Concat(pages[..2]) == p1.items + p2.items by {
      assert pages[..2][..1] == pages[..1];
    }
    assert |pageNums| == 2;
    assert pages == pages[..2];
  }

  // ---------------------------------------------------------------------------
  // The two multi-page searches libbysinglelib_test.go runs

  function Book(n: int): SearchResponseItem
  {
    TitledItem(if n == 1 then "Book 1" else if n == 2 then "Book 2" else "Book 3")
  }

  /** Page 1 holds two books and links to page 2; every other page holds a third
      book and has no `next` link. */
  function TwoPageCatalog(): Fetch
  {
    n => if n == 1
         then Success(SearchResponse([Book(1), Book(2)], SearchResponseLinks(Some(PageInfo(1)), Some(PageInfo(2)))))
         else Success(SearchResponse([Book(3)], SearchResponseLinks(Some(PageInfo(1)), None)))
  }

  /** With up to 3 results wanted, the search reads pages 1 and 2 and returns the
      three books in order. */
  lemma TwoPageSearch(pageNums: seq<int>, pages: seq<SearchResponse>, r: Result<Items, SearchError>)
    requires IsRun(TwoPageCatalog(), 3, pageNums, pages, r)
    ensures pageNums == [1, 2]
    ensures r == Success([Book(1), Book(2), Book(3)])
  {
    var fetch := TwoPageCatalog();
    assert |pages| >= 1;
    assert fetch(pageNums[0]) == Success(pages[0]);
    assert pages[..1] == [pages[0]];
    assert Concat([pages[0]]) == pages[0].items by {
      assert [pages[0]][..0] == [];
    }
    assert |pageNums| >= 2;
    assert |pages| >= 2;
    assert fetch(pageNums[1]) == Success(pages[1]);
    assert pages[..2] == [pages[0], pages[1]];
    assert [pages[0], pages[1]][..1] == [pages[0]];
    assert Concat(pages[..2]) == [Book(1), Book(2), Book(3)];
    assert |pageNums| == 2;
    assert pages == pages[..2];
  }

  /** Every page holds three books and links to page 2 again. */
  function RepeatingCatalog(): Fetch
  {
    n => Success(SearchResponse([Book(1), Book(2), Book(3)], SearchResponseLinks(Some(PageInfo(1)), Some(PageInfo(2)))))
  }

  /** With up to 2 results wanted, the search stops after page 1, although its
      `next` link repeats forever, and returns the first two books. */
  lemma RepeatingSearch(pageNums: seq<int>, pages: seq<SearchResponse>, r: Result<Items, SearchError>)
    requires IsRun(RepeatingCatalog(), 2, pageNums, pages, r)
    ensures pageNums == [1]
    ensures r == Success([Book(1), Book(2)])
  {
    var fetch := RepeatingCatalog();
    assert |pages| >= 1;
    assert fetch(pageNums[0]) == Success(pages[0]);
    assert pages[..1] == [pages[0]];
    assert Concat([pages[0]]) == pages[0].items by {
      assert [pages[0]][..0] == [];
    }
    assert |pageNums| == 1;
    assert pages == pages[..1];
    assert [Book(1), Book(2), Book(3)][..2] == [Book(1), Book(2)];
  }

  /** Both test searches do stop: the bound the search method needs exists. */
  lemma TestSearchesStop()
    ensures SearchStops(TwoPageCatalog(), 3, 1)
    ensures SearchStops(RepeatingCatalog(), 2, 0)
  {
    var p2 := TwoPageCatalog()(2);
    assert !Continues(3, 3, p2.value.links);
  }

  /** Empty pages whose `next` link repeats page 2: with any positive
      `maxResults` the loop never stops, as nothing guards against a cycle. */
  function EmptyRepeatingCatalog(): Fetch
  {
    n => Success(SearchResponse([], SearchResponseLinks(Some(PageInfo(n)), Some(PageInfo(2)))))
  }

  lemma {:induction false} EmptyCycleNeverStops(maxResults: int, k: nat)
    requires maxResults > 0
    ensures !SearchStops(EmptyRepeatingCatalog(), maxResults, k)
  {
    var fetch := EmptyRepeatingCatalog();
    var links := SearchResponseLinks(Some(PageInfo(2)), Some(PageInfo(2)));
    assert fetch(2).value.links == links;
    EmptyCycleFrom(maxResults, k);
  }

  lemma {:induction false} EmptyCycleFrom(maxResults: int, k: nat)
    requires maxResults > 0
    ensures !StopsWithin(EmptyRepeatingCatalog(), maxResults, 0, SearchResponseLinks(Some(PageInfo(2)), Some(PageInfo(2))), k)
    ensures !StopsWithin(EmptyRepeatingCatalog(), maxResults, 0, SearchResponseLinks(Some(PageInfo(1)), Some(PageInfo(2))), k)
  {
    var fetch := EmptyRepeatingCatalog();
    assert fetch(2).value.links == SearchResponseLinks(Some(PageInfo(2)), Some(PageInfo(2)));
    assert |fetch(2).value.items| == 0;
    if k > 0 {
      EmptyCycleFrom(maxResults, k - 1);
    }
  }
}
