# got-issues: a Dafny model of the issue fetcher

`fetch.py` fetches the issues of a GitHub repository one page at a time. It stops once
the last issue in its list (the oldest it has fetched so far) was created at or before a
cutoff. The cutoff is "now minus N months". Then it prints the whole list as one JSON
array. This project models the logic inside that script and proves its properties:

- `parse_item`, in module `ItemParser`. It turns one raw issue object into a normalised
  record. Seven values are copied as they are under new names. The label objects become
  the ordered list of their names.
- `fetch_page`, in module `PageFetcher`. It covers the argument guard, the headers and the
  page URL of the request, and the mapping of the decoded page through `parse_item`. Every
  transport, decoding and parsing error is swallowed.
- `last_date` and the pagination loop of `main`, in module `FetchLoop`. This is a two-state
  machine over an append-only list and a page counter.

Supporting modules:

- `JsonValue` holds decoded JSON values and Python's subscript on them.
- `Decimal` holds the decimal text of a page number and its inverse.
- `Outcomes` holds the Option and Result types and the fatal stops.

The network and the JSON decoder are one parameter, `server: Request -> Response`. It
maps each request to what came back: an HTTP error, a transport error, a body that is not
JSON, or a decoded value. A request holds its target (repository and page number) and its
headers. The URL text is `Url(target)`, and different pages use different URLs
(`PageUrlsDistinct`). Each page of a run is requested once, so a function is enough.
dateutil's parser is a parameter `parseDate: string -> Option<int>`, so timestamps are
integers in their usual order. The cutoff is a parameter too. `sys.exit(1)` and the
uncaught exception of a bad timestamp become the `Failed` outcome. The source loop need
not terminate, so the model bounds it with `fuel` pages after the first. It returns
`OutOfFuel` when the bound is used up while the loop still wants more pages.

The loop is specified by the function `Loop` over a `Machine`: a page function, the cutoff
and the parser. `Accumulated(m, n)` is pages 1..n of the machine, concatenated in fetch
order. A run uses the machine whose page p is what `fetch_page` returns for page p.

Three behaviours of the code shape the model:

- `parse_item` can fail. A missing key or a subscript on a non-object raises.
- When `parse_item` raises on item k, `fetch_page` returns the records of items 0..k-1.
  It does not discard the whole page.
- An empty token is falsy, so it sends no `Authorization` header, just like no token.

## Model

| member | source | states |
|---|---|---|
| `ItemParser.ParseItem` | fetch.py:27-44 | The result is `Normalize(item)`. It is a record exactly when the item is an object holding the seven keys, `user` is an object holding `login`, and `labels` can be iterated with a `name` taken from each element. `url`, `title`, `body`, `author`, `created_at`, `closed_at` and `updated_at` are copied from `html_url`, `title`, `body`, `user.login`, `created_at`, `closed_at` and `updated_at` without any default. `labels` has one entry per raw label, entry i being the name of raw label i. An empty list gives `[]`. |
| `PageFetcher.Headers` | fetch.py:55-60 | `Accept` is always the versioned media type. `Authorization` is present exactly when the token is truthy, and its value is `"token "` followed by the token. There are no other headers. |
| `PageFetcher.PageRequestShape` | fetch.py:61-64 | The request for page p names a URL whose page number reads back as p, for the same repository. |
| `PageFetcher.PageUrlRoundTrip` | fetch.py:61-64 | Parsing the page number back out of the URL for page p, which is `.../repos/{repository}/issues?page={p}&state=all`, gives p. |
| `PageFetcher.PageUrlsDistinct` | fetch.py:62 | Two different page numbers give two different URLs. |
| `Decimal.Show` | fetch.py:62 | The decimal text of a page number is a non-empty string of digits. It starts with `0` only for 0. |
| `Decimal.ParseShow` | fetch.py:62 | Reading the decimal text of n back gives n. |
| `PageFetcher.ParsedPrefixSpec` | fetch.py:65-76 | The list `fetch_page` returns for a decoded page is the longest leading run of items that `parse_item` accepts. Entry i is item i normalised. The item just after the run, if any, is one that `parse_item` rejects. |
| `PageFetcher.ParsedPrefixWholePage` | fetch.py:70-71 | When every item parses, the result is the page mapped through `parse_item`, with the same length and order. |
| `PageFetcher.FetchPage` | fetch.py:47-76 | It errs only for the guard (`MissingArguments`). Otherwise it returns the items of the response to `PageRequest(args, p)`. That is the parsed prefix of a decoded list, and `[]` after an HTTP, transport or decoding failure or for a decoded value that is not a list. |
| `FetchLoop.FetchIssues` | fetch.py:98-114 | `main` ends in `Run(env, fuel)`. It fetches page 1, which stops everything with `MissingArguments` when the guard fails, and then runs the loop on the list of page 1. |
| `FetchLoop.Paginate` | fetch.py:108-111 | The imperative while loop ends in `Loop(m, start, fuel)`. While the last issue is newer than the cutoff, it adds 1 to the page counter and appends the next page. The list always equals pages 1..page concatenated, and every check passed so far held. |
| `FetchLoop.FetchNextPage` | fetch.py:110-111 | Once the guard has passed, fetching page p gives the machine's page p. |
| `FetchLoop.LoopReaches` | fetch.py:108-111 | While every check between two pages holds, the loop started at the first page is the loop started at the later one, with the pages in between spent from the bound. |
| `FetchLoop.AccumulatedGrows` | fetch.py:102-111 | The accumulator only grows. The list after k pages is a prefix of the list after any later page. |
| `FetchLoop.FailedPageKeepsAccumulator` | fetch.py:65-76 | A page whose request or decoding fails leaves the accumulator unchanged. |
| `FetchLoop.LoopFinishedAtFirstStop` | fetch.py:108-114 | If the loop finishes, it stopped at the first page n, from the current one on, after which the check is false. Every earlier check held. The printed list is pages 1..n, and its last issue was created at or before the cutoff. |
| `FetchLoop.LoopStopsAtFirstStop` | fetch.py:108-114 | Conversely, if n is that first page and the bound reaches it, the loop finishes with pages 1..n. |
| `FetchLoop.RunFinished` | fetch.py:101-114 | A finished run passed the guard and printed pages 1..n for the first n whose check fails. Its last issue is at or before the cutoff. |
| `FetchLoop.RunStops` | fetch.py:101-114 | A run whose first failing check comes after page n, within the bound, prints pages 1..n. |
| `FetchLoop.LastDate` | fetch.py:16-24 | `NoData` exactly for an empty list. `BadTimestamp` exactly when the `created_at` of the last issue is not a string that parses. Otherwise the parsed `created_at` of the last issue. |
| `FetchLoop.LoopFailure` | fetch.py:16-24 | Inside the loop, the guard's `MissingArguments` never arises. Once the list is not empty, `last_date` never reports `NoData` again. |
| `FetchLoop.RunNoData` | fetch.py:16-24 | The run stops with `NoData` exactly when the guard passes and page 1 yields no issue. |
| `FetchLoop.RunMissingArguments` | fetch.py:50-52 | The run stops with `MissingArguments` exactly when the repository is empty or months is 0. |
| `FetchLoop.LoopStallsOnEmptyPages` | fetch.py:108-111 | If the check holds and every later page yields nothing, the loop keeps checking the same last issue until the bound is used up. |
| `FetchLoop.RunStalls` | fetch.py:108-111 | If page 1 is newer than the cutoff and nothing follows, no bound on the number of pages is enough: the run always ends in `OutOfFuel`. |

## Left out

- HTTP transport (`request.urlopen`, reading and decoding the body as UTF-8) and `json.loads`: foreign I/O. They are the `server` parameter, whose answer is already decoded or a failure.
- Logging of errors: output only, with no effect on results.
- `argparse`: the arguments arrive already parsed as `Args`. Argument errors that argparse itself reports (exit status 2) are not modelled.
- Printing the final list (`json.dumps` and `print`): output only. A `Finished` outcome carries the list that would be printed.
- `datetime.now()`, `pytz` and `relativedelta` calendar-month subtraction: library date handling. The cutoff is a parameter.
- `dateutil.parser.parse`: a parameter mapping a string to an integer time, or to nothing when Python would raise. That includes comparing a timestamp without a time zone against the cutoff.
- Process exit: `sys.exit(1)` and the uncaught exception are the `Failed` outcome.
- Termination of the real loop: it need not terminate, so the model has a `fuel` bound on extra pages and an `OutOfFuel` outcome.
- JSON numbers are integers in the model. Floats are not told apart, since no number's value is ever inspected.
- Python dict order of a decoded object is not kept. Iterating a non-empty object or string only ever yields strings, and the code rejects every string it meets, so the order never matters.
- Page numbers are natural numbers, because `main` counts from 1.
