# Libby single-library search, modelled in Dafny

This project models the single-library client of the Libby catalog search
(`internal/pkg/libbysinglelib/libbysinglelib.go`). A `Lib` holds a library id
and the search endpoint derived from it. It also holds an HTTP client with a
five-second timeout. `Search` fetches page 1 at the maximum page size of 100.
While fewer than `maxResults` items have been collected and the last response
carries a `next` link, it fetches that page and appends its items. Finally it
cuts the collected items to `maxResults`. The first failed request ends the
search with that error and no items.

Each page request does the following:

- It refuses a page size above 100 before building anything.
- It builds the query values: the constant `format` filter, whose six format
  codes are joined into one comma-separated value, then `query`, `page` and
  `perPage`.
- It encodes them and rewrites every `%2C` of the encoded string back to a
  literal `,`.
- It sends the request and returns the decoded page.

Modules:

- `Wrappers`: `Option` and `Result`.
- `LibbyResponse`: the decoded response records (items, links, page info). It
  also holds the error kinds: page size exceeded, or a failed fetch.
- `QueryString`: the comma join (the `strings.Builder` loop) and its inverse
  `Split`. It also holds the `%2C` rewrite (`strings.ReplaceAll`) with its
  inverse `EncodeCommas`, and the query values and raw query of one request.
- `Pagination`: what a run of the pagination loop is, over an abstract fetcher
  from page number to outcome. It holds the ghost predicate `IsRun`, the final
  truncation, termination, determinism, the outcome as a recursive function
  (`Outcome`) with a proof that every run ends with it, and the searches the
  source's tests describe.
- `LibbySingleLib`: the endpoint, the page request `FetchPage` and the class
  `Lib`. The class has the constructor, `SinglePageSearchRequest` (its loop over
  the constant parameters calls `JoinWithCommas`), `SearchGetAllPagesUntilMax`
  (its `while` loop is proved to produce a run satisfying `IsRun`), and `Search`.

Three things come in from outside and are arguments to the model:

- The HTTP client's `Do`, the body read and the JSON decode are one abstract
  `Transport` function held in `HttpClient.send`. It returns the decoded page
  or a failure reason, and the source's tests likewise swap the client for a
  mock.
- `url.Values.Encode` is an abstract `encode` parameter.
- `Lib` takes the constant query parameters as an immutable field, which the
  constructor sets to the source's package-level `format` list.

The code accepts a `maxResults` of zero: it still requests page 1 and, if that
succeeds, returns no items (a failure of that request is returned as is). It has no guard
against a `next` link that points backwards or repeats;
`Pagination.EmptyCycleNeverStops` exhibits a source on which the loop never
stops.

## Model

| member | source | states |
|---|---|---|
| LibbySingleLib.Lib.constructor | internal/pkg/libbysinglelib/libbysinglelib.go:70-80 | the id is kept as given; the endpoint is prefix + id + `/media`; the client has the 5-second default timeout and sends through the given transport; the constant parameters are the `format` list |
| LibbySingleLib.LibrarySearchURL | internal/pkg/libbysinglelib/libbysinglelib.go:74 | the endpoint starts with the fixed API prefix, ends with `/media`, and what lies between is exactly the library id |
| LibbySingleLib.LibrarySearchURLInjective | internal/pkg/libbysinglelib/libbysinglelib.go:72-75 | two libraries with the same endpoint have the same id |
| LibbySingleLib.Lib.SinglePageSearchRequest | internal/pkg/libbysinglelib/libbysinglelib.go:114-161 | a page size above 100 fails with a page-size error and sends nothing; otherwise exactly one request goes to the library endpoint with the comma-rewritten encoded query values, and the outcome is the transport's decoded page or a fetch failure carrying its reason |
| LibbySingleLib.Lib.SearchGetAllPagesUntilMax | internal/pkg/libbysinglelib/libbysinglelib.go:86-112 | the pages requested, the responses received and the result form a run (`Pagination.IsRun`): page 1 first, each later page is the last response's `next`, a page is requested only while fewer than `maxResults` items are collected, the first error aborts with that error, otherwise the loop stopped and the result is the collected items cut to `maxResults` |
| LibbySingleLib.Lib.Search | internal/pkg/libbysinglelib/libbysinglelib.go:82-84 | the result is the search outcome `Pagination.Outcome` for this library and query, and it is the result of a run of the pagination loop |
| Pagination.RunOutcome | internal/pkg/libbysinglelib/libbysinglelib.go:86-112 | every run of the loop ends with the result that `Outcome` computes: first error, or the collected items cut to `maxResults` once the loop condition fails |
| Pagination.OutcomeFuel | internal/pkg/libbysinglelib/libbysinglelib.go:91-103 | the outcome does not depend on which termination bound is used, as long as the loop stops within it |
| Pagination.Truncate | internal/pkg/libbysinglelib/libbysinglelib.go:104-111 | the result has `min(count, maxResults)` items, is a prefix of the collected items, and is all of them when they fit |
| Pagination.RunDeterministic | internal/pkg/libbysinglelib/libbysinglelib.go:86-112 | two runs over the same fetcher and cap request the same pages, receive the same responses and end with the same result |
| Pagination.ErrorAbortsSearch | internal/pkg/libbysinglelib/libbysinglelib.go:87-96 | a failed request is the last one made, and the search returns its error |
| Pagination.SuccessfulRun | internal/pkg/libbysinglelib/libbysinglelib.go:91-111 | a successful search returns at most `maxResults` items, the first ones in fetch order; it stopped because `maxResults` was reached or the last page had no `next` link; everything collected is returned when it fits |
| Pagination.SinglePageSource | internal/pkg/libbysinglelib/libbysinglelib.go:87-111 | a first page with no `next` link and at most `maxResults` items is the only request, and its items come back unchanged |
| Pagination.TwoPageSource | internal/pkg/libbysinglelib/libbysinglelib.go:87-111 | a first page with fewer than `maxResults` items linking to a last page, with the total within `maxResults`, gives exactly these two requests and the first page's items followed by the second's |
| Pagination.IncreasingChainStops | internal/pkg/libbysinglelib/libbysinglelib.go:91-103 | when every `next` link points forward and no further than some page `bound`, the loop stops within `bound` follow-up requests |
| Pagination.EmptyCycleNeverStops | internal/pkg/libbysinglelib/libbysinglelib.go:91-103 | empty pages whose `next` link repeats page 2 make the loop run forever for any positive `maxResults`: no number of follow-up requests suffices |
| Pagination.TwoPageSearch | internal/pkg/libbysinglelib/libbysinglelib_test.go:126-161 | two books on page 1 linking to page 2, one book there, cap 3: pages 1 and 2 are read and the three books come back in order |
| Pagination.RepeatingSearch | internal/pkg/libbysinglelib/libbysinglelib_test.go:163-185 | three books on every page, each linking to page 2, cap 2: only page 1 is read and the first two books come back |
| Pagination.TestSearchesStop | internal/pkg/libbysinglelib/libbysinglelib_test.go:126-185 | both test catalogs meet `SearchStops` (bounds 1 and 0) |
| QueryString.JoinWithCommas | internal/pkg/libbysinglelib/libbysinglelib.go:126-133 | the builder loop writes the values with a comma between consecutive ones and nowhere else (`Join(values, ",")`) |
| QueryString.SplitJoin | internal/pkg/libbysinglelib/libbysinglelib.go:126-133 | splitting a non-empty join at the separator gives the values back when none contains the separator |
| QueryString.FormatCodesSplit | internal/pkg/libbysinglelib/libbysinglelib.go:21-31 | the joined `format` value splits at its commas into exactly the six format codes, in order |
| QueryString.QueryValuesContents | internal/pkg/libbysinglelib/libbysinglelib.go:123-137 | the request carries four values: `format` with the six codes comma-joined, then `query`, `page` and `perPage` with the decimal page number and size |
| QueryString.DecodeCommasLeavesNone | internal/pkg/libbysinglelib/libbysinglelib.go:139-142 | after the rewrite no `%2C` is left in the string |
| QueryString.DecodeThenEncode | internal/pkg/libbysinglelib/libbysinglelib.go:141-142 | on a string without literal commas, re-encoding the commas of the rewritten string gives the original back: the rewrite changes each `%2C` into `,` and nothing else |
| QueryString.EncodeThenDecode | internal/pkg/libbysinglelib/libbysinglelib.go:141-142 | the other direction: rewriting a comma-encoded string gives back the original when it held no `%2C` of its own |
| QueryString.RawQueryDecodesCommas | internal/pkg/libbysinglelib/libbysinglelib.go:139-142 | the raw query of a request holds no `%2C`, and when the encoder's output has no literal comma the raw query is that output with each `%2C` turned into `,` |

## Left out

- Sending the request, the client timeout, reading the body and decoding the JSON are not modelled. They are the abstract `Transport` function, and the failure of any of them is one `FetchFailed` reason.
- `Transport` is a pure function of the request, so the model assumes a server that always answers the same request the same way: a repeated page that answers differently, or a transient failure, cannot be represented. `Pagination.RunDeterministic` and `Pagination.EmptyCycleNeverStops` depend on this.
- `url.Values.Encode` is an abstract parameter: its key sorting and percent-encoding are not modelled. The query values are kept as an ordered list, which is enough because the constant parameters have a single key.
- The `log.Printf` calls are left out; they have no effect on results.
- The error messages' wording is left out; errors carry the page size and maximum, or the transport's reason.
- `internal/pkg/libby/libby.go` (type and interface declarations: `LibbyLibrary`, `LibbyResult`, the `Libby` interface and a URL variable) and `cmd/libquery/main.go` (the command line) are not part of this model.
- LibbySingleLib.Lib.SearchGetAllPagesUntilMax: requires a ghost bound `SearchStops` on the number of follow-up requests, so runs that never end are not modelled. `Pagination.IncreasingChainStops` gives the bound for sources whose `next` links point forward up to a last page.
- LibbySingleLib.Lib.SearchGetAllPagesUntilMax: requires `maxResults >= 0`; with a negative cap the source slices with a negative bound and panics.
- LibbySingleLib.Lib.Search: has the same two requires as `SearchGetAllPagesUntilMax`, the ghost bound `SearchStops` (runs that never end are not modelled) and `maxResults >= 0` (the source panics on a negative cap).
- LibbySingleLib.Lib.SinglePageSearchRequest: the library id is assumed to be a plain path segment that `http.NewRequest` accepts. The failure of `http.NewRequest` (an id with a control character or a malformed %-escape), which ends the request before anything is sent, is not modelled. Neither is an id containing `?`, whose query part `r.URL.Query()` would put ahead of the added values.
- QueryString.FormatCodesSplit: states the joined `format` value through `Split`, not as the literal comma-separated string.
- `Pagination.IsRun`, `SinglePageSearchRequest`'s `sent` and the page lists of `SearchGetAllPagesUntilMax` are ghost. They record what was requested in the order it was requested; the source keeps no such record.
