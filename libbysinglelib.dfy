/** One Libby library: its id, the search endpoint derived from it, and the HTTP
    client it sends page requests with; the page request with its page-size guard,
    and the search that fetches pages until it has `maxResults` items or runs out
    of pages. */
module LibbySingleLib {
  import opened Wrappers
  import opened LibbyResponse
  import opened QueryString
  import opened Pagination

  const DefaultHTTPTimeoutSeconds := 5
  const MaxPageSize := 100

  const SearchURLPrefix := "https://thunder.api.overdrive.com/v2/libraries/"
  const SearchURLSuffix := "/media"

  /** A GET request: the endpoint and its raw query string. */
  datatype Request = Request(url: string, rawQuery: string)

  /** Sending a request, reading its body and decoding the JSON: the decoded page,
      or the reason one of those steps failed. */
  type Transport = Request -> Result<SearchResponse, string>

  datatype HttpClient = HttpClient(timeoutSeconds: nat, send: Transport)

  /** The search endpoint of a library: the fixed prefix, the id, then `/media`. */
  function LibrarySearchURL(libraryID: string): (url: string)
    ensures |url| == |SearchURLPrefix| + |libraryID| + |SearchURLSuffix|
    ensures url[..|SearchURLPrefix|] == SearchURLPrefix
    ensures url[|url| - |SearchURLSuffix|..] == SearchURLSuffix
    ensures url[|SearchURLPrefix|..|url| - |SearchURLSuffix|] == libraryID
  {
    SearchURLPrefix + libraryID + SearchURLSuffix
  }

  /** Different libraries get different endpoints. */
  lemma LibrarySearchURLInjective(a: string, b: string)
    requires LibrarySearchURL(a) == LibrarySearchURL(b)
    ensures a == b
  {
    var u := LibrarySearchURL(a);
    assert a == u[|SearchURLPrefix|..|u| - |SearchURLSuffix|];
  }

  /** The outcome of one page request: a page size above the maximum is refused
      before anything is sent; otherwise the request for the endpoint and the raw
      query goes out and its decoded page or failure comes back. */
  function FetchPage(url: string, client: HttpClient, constants: seq<(string, seq<string>)>,
                     q: string, pageNum: int, pageSize: int, encode: QueryEncoder): Result<SearchResponse, SearchError>
  {
    if pageSize > MaxPageSize then Failure(PageSizeExceeded(pageSize, MaxPageSize))
    else
      match client.send(Request(url, RawQuery(constants, q, pageNum, pageSize, encode)))
      case Success(resp) => Success(resp)
      case Failure(reason) => Failure(FetchFailed(reason))
  }

  class Lib {
    const libID: string
    const librarySearchURL: string
    var httpClient: HttpClient
    /** The constant query parameters every request carries. */
    const constantSearchQueryParams: seq<(string, seq<string>)>

    /** `NewLibbySingleLib`: the id as given, the endpoint derived from it, and a
        client with the default timeout that sends through `transport`. */
    constructor (libraryID: string, transport: Transport)
      ensures libID == libraryID
      ensures librarySearchURL == LibrarySearchURL(libraryID)
      ensures httpClient.timeoutSeconds == DefaultHTTPTimeoutSeconds && httpClient.send == transport
      ensures constantSearchQueryParams == ConstantSearchQueryParams
    {
      libID := libraryID;
      librarySearchURL := SearchURLPrefix + libraryID + SearchURLSuffix;
      httpClient := HttpClient(DefaultHTTPTimeoutSeconds, transport);
      constantSearchQueryParams := ConstantSearchQueryParams;
    }

    /** The page requests the search makes: query `q`, page size `MaxPageSize`. */
    function Fetcher(q: string, encode: QueryEncoder): Fetch
      reads this
    {
      var url, client, constants := librarySearchURL, httpClient, constantSearchQueryParams;
      n => FetchPage(url, client, constants, q, n, MaxPageSize, encode)
    }

    /** One page request. `sent` is the request handed to the client, if any. */
    method SinglePageSearchRequest(q: string, pageNum: int, pageSize: int, encode: QueryEncoder)
      returns (r: Result<SearchResponse, SearchError>, ghost sent: Option<Request>)
      ensures pageSize > MaxPageSize ==> r == Failure(PageSizeExceeded(pageSize, MaxPageSize)) && sent == None
      ensures pageSize <= MaxPageSize ==>
                sent == Some(Request(librarySearchURL, RawQuery(constantSearchQueryParams, q, pageNum, pageSize, encode)))
      ensures r == FetchPage(librarySearchURL, httpClient, constantSearchQueryParams, q, pageNum, pageSize, encode)
    {
      if pageSize > MaxPageSize {
        return Failure(PageSizeExceeded(pageSize, MaxPageSize)), None;
      }
      var queryVals: seq<QueryParam> := [];
      // add all the constant values, each key's list joined into one value
      var constants := constantSearchQueryParams;
      for k := 0 to |constants|
        invariant queryVals == ConstantParams(constants[..k])
      {
        var joined := JoinWithCommas(constants[k].1);
        queryVals := queryVals + [QueryParam(constants[k].0, joined)];
        assert constants[..k + 1][..k] == constants[..k];
      }
      assert constants[..|constants|] == constants;
      queryVals := queryVals + [QueryParam(QueryParamName, q)];
      queryVals := queryVals + [QueryParam(PageNumberParamName, IntToDecimal(pageNum))];
      queryVals := queryVals + [QueryParam(PageSizeParamName, IntToDecimal(pageSize))];
      assert queryVals == QueryValues(constants, q, pageNum, pageSize);
      // the API refuses encoded commas in the query string
      var qStr := encode(queryVals);
      var req := Request(librarySearchURL, DecodeCommas(qStr));
      sent := Some(req);
      var resp := httpClient.send(req);
      match resp {
        case Success(page) => r := Success(page);
        case Failure(reason) => r := Failure(FetchFailed(reason));
      }
    }

    /** Fetch page 1, then the `next` page of the last response while fewer than
        `maxResults` items have been collected, and cut the items to `maxResults`.
        `pageNums` are the pages requested and `pages` the responses received.
        `fuel` bounds the number of follow-up requests; it only justifies that
        the loop ends. */
    method SearchGetAllPagesUntilMax(q: string, maxResults: int, encode: QueryEncoder, ghost fuel: nat)
      returns (r: Result<Items, SearchError>, ghost pageNums: seq<int>, ghost pages: seq<SearchResponse>)
      requires maxResults >= 0
      requires SearchStops(Fetcher(q, encode), maxResults, fuel)
      ensures IsRun(Fetcher(q, encode), maxResults, pageNums, pages, r)
    {
      ghost var fetch := Fetcher(q, encode);
      ghost var sent: Option<Request>;
      var first;
      first, sent := SinglePageSearchRequest(q, 1, MaxPageSize, encode);
      assert first == fetch(1);
      pageNums := [1];
      if first.Failure? {
        FirstPageFails(fetch, maxResults);
        pages := [];
        return Failure(first.error), pageNums, pages;
      }
      var results := first.value.items;
      var links := first.value.links;
      pages := [first.value];
      FirstPage(fetch, maxResults);
      ghost var k := fuel;
      while |results| < maxResults && links.next.Some?
        invariant RunSoFar(fetch, maxResults, pageNums, pages)
        invariant results == Concat(pages) && links == pages[|pages| - 1].links
        invariant StopsWithin(fetch, maxResults, |results|, links, k)
        decreases k
      {
        var nextPage := links.next.value.page;
        var res;
        res, sent := SinglePageSearchRequest(q, nextPage, MaxPageSize, encode);
        assert res == fetch(nextPage);
        if res.Failure? {
          NextPageFails(fetch, maxResults, pageNums, pages);
          pageNums := pageNums + [nextPage];
          return Failure(res.error), pageNums, pages;
        }
        NextPage(fetch, maxResults, pageNums, pages);
        links := res.value.links;
        results := results + res.value.items;
        pageNums := pageNums + [nextPage];
        pages := pages + [res.value];
        k := k - 1;
      }
      RunEnds(fetch, maxResults, pageNums, pages);
      r := Success(Truncate(results, maxResults));
    }

    /** The search of this library: `SearchGetAllPagesUntilMax`. */
    method Search(q: string, maxResults: int, encode: QueryEncoder, ghost fuel: nat)
      returns (r: Result<Items, SearchError>)
      requires maxResults >= 0
      requires SearchStops(Fetcher(q, encode), maxResults, fuel)
      ensures r == Outcome(Fetcher(q, encode), maxResults, fuel)
      ensures exists pageNums, pages :: IsRun(Fetcher(q, encode), maxResults, pageNums, pages, r)
    {
      ghost var pageNums, pages;
      r, pageNums, pages := SearchGetAllPagesUntilMax(q, maxResults, encode, fuel);
      RunOutcome(Fetcher(q, encode), maxResults, pageNums, pages, r, fuel);
    }
  }
}
