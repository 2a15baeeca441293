/** The decoded shape of one page of a Libby (OverDrive "thunder") media search:
    the items, and the `links` block that says which page this was and which one
    comes next. */
module LibbyResponse {
  import opened Wrappers

  /** The `type` object of an item: "ebook", "audiobook", ... */
  datatype ResponseType = ResponseType(id: string)

  /** One search hit, with the fields the Go client decodes from the response body. */
  datatype SearchResponseItem = SearchResponseItem(
    title: string,             // short title
    sortTitle: string,         // full title of a multi-phrase title
    author: string,            // "First Last"
    sortAuthor: string,        // "Last, First"
    isOwned: bool,             // the library has a copy
    ownedCopies: int,
    availableCopies: int,
    holdsCount: int,
    estimatedWaitDays: int,
    itemType: ResponseType)

  datatype PageInfo = PageInfo(page: int)

  /** `links.self` and `links.next`; a missing `next` means this is the last page. */
  datatype SearchResponseLinks = SearchResponseLinks(self: Option<PageInfo>, next: Option<PageInfo>)

  datatype SearchResponse = SearchResponse(items: seq<SearchResponseItem>, links: SearchResponseLinks)

  /** Why one page request failed. */
  datatype SearchError =
    | PageSizeExceeded(pageSize: int, maxPageSize: int)  // rejected before any request is built
    | FetchFailed(reason: string)                        // building, sending, reading or decoding failed

  /** An item that carries only a title, as libbysinglelib_test.go builds them. */
  function TitledItem(title: string): SearchResponseItem
  {
    SearchResponseItem(title, "", "", "", false, 0, 0, 0, 0, ResponseType(""))
  }
}
