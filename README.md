# Apple App Store review scraper: the pagination and retry core

This project models the deterministic core of `src/apple_app_reviews_scraper.py` in Dafny:

- **`get_token`** scans the lines of the storefront landing page. Each line that the
  pattern `<meta.+web-experience-app/config/environment` matches is a configuration
  line. From each configuration line it takes the lazy group of `token%22%3A%22(.+?)%22`.
  There is no `break`, so the last configuration line supplies the token. There are two
  failures. With no configuration line, `token` is unbound when it is returned. With a
  configuration line that lacks the token pattern, `.group(1)` is called on `None`.
  Both are explicit outcomes of `Token.GetToken`. A landing status other than 200 is
  only reported, so extraction goes ahead.
- **`fetch_reviews`** runs a request loop bounded by `retry_count < MAX_RETRIES`
  (`MAX_RETRIES = 5`, `BASE_DELAY_SECS = 10`):
  - 200 leaves the loop with the parsed body.
  - 429 increments `retry_count` and backs off `10 * retry_count` seconds.
  - 404 leaves the loop.
  - Any other status changes nothing, and the loop requests again.

  After the loop, the cursor of the following page is the digit group of
  `^.+offset=([0-9]+).*$` in the `next` link, or `None` when `next` is missing or null.
  Every record of the batch is then stamped in place with that cursor, the batch size
  and the app id. The function returns `(reviews, offset, status of the last response)`.

The HTTP server is replaced by the finite sequence of responses it gives, one per request.
Each response has a status and, for 200, an already parsed body. The model therefore has
an outcome the source does not have: `StillRequesting` means the responses ran out while
the loop would still issue another request. `Retry.IgnoredForever` proves that a server
answering only statuses outside {200, 404, 429} keeps the loop requesting however many
responses it gives. In the source, that loop never ends.

The regexes are modelled exactly, not by a general engine:
- Python's `.` does not match a newline.
- `$` may stand before a final newline.
- The backtracking engine reports the greedy match with the latest start and, for that
  start, the longest digit run.
- The lazy token group is the leftmost match with the shortest group.

Modules:
- `Wrappers` (Option)
- `Json` (record values)
- `Cursor` (cursor pattern)
- `Token` (`get_token`)
- `Stamping` (record stamping, in place over an array)
- `Retry` (the loop as a step function `Step`, its run `Run`, and its properties)
- `Fetch` (the `fetch_reviews` method, the specification `Fetch` it is proved equal to, and its properties)

Three behaviours of the program are worth stating outright:
- A status outside {200, 404, 429} is not counted as a retry, and the loop requests again.
- A `next` link the cursor pattern rejects makes `.group(1)` fail on `None` at line 108.
  The model calls this outcome `CursorNotFound`.
- The two token failures are an `UnboundLocalError` at line 26 (no configuration line)
  and an `AttributeError` at line 24 (a configuration line without the token pattern).
  The model calls them `NoConfigLine` and `ConfigLineWithoutToken`.

## Model

| member | source | states |
|---|---|---|
| `Cursor.MatchSpan` | src/apple_app_reviews_scraper.py:108 | When the cursor pattern matches, the span returned is the match the backtracking engine reports: no match starts later, or ends later from the same start. When it returns `None`, no match exists. |
| `Cursor.ExtractOffset` | src/apple_app_reviews_scraper.py:107-108 | `None` exactly when `^.+offset=([0-9]+).*$` does not match the link. Otherwise the result is the group of the reported match: a non-empty digit string following the last `offset=` that is followed by a digit and has at least one character before it. |
| `Token.MarkerFromMatches` | src/apple_app_reviews_scraper.py:23 | Scanning for the configuration marker from position `j` succeeds exactly when some match of the line pattern stretches `.+` to `j` or beyond. |
| `Token.ConfigLineMatches` | src/apple_app_reviews_scraper.py:23 | A line is a configuration line exactly when `re.match("<meta.+web-experience-app/config/environment", line)` succeeds. |
| `Token.CloseFromNearest` | src/apple_app_reviews_scraper.py:24 | The search for `%22` finds the nearest occurrence not preceded by a newline, or reports that every later occurrence has a newline before it. |
| `Token.MatchAtShortest` | src/apple_app_reviews_scraper.py:24 | From a given start, the token match found has the shortest group, as the lazy `.+?` has. When none is found, none exists. |
| `Token.SearchFromLeftmost` | src/apple_app_reviews_scraper.py:24 | The search returns the match with the leftmost start and, for that start, the shortest group. When it returns `None`, there is no match at or after the position. |
| `Token.TokenInMatches` | src/apple_app_reviews_scraper.py:24 | `TokenIn(line)` is `None` exactly when `token%22%3A%22(.+?)%22` does not match. Otherwise it is the group `re.search` reports, which is non-empty and holds no newline. |
| `Token.ShortestToken` | src/apple_app_reviews_scraper.py:24 | For `token%22%3A%22ab%22c%22` the token is `ab`: the group stops at the first `%22`. |
| `Token.TokenSpecUnique` | src/apple_app_reviews_scraper.py:21-27 | The outcome of `get_token` is determined by the page lines, so the same page always gives the same token. |
| `Token.GetToken` | src/apple_app_reviews_scraper.py:18-27 | With no configuration line: `NoConfigLine`. A configuration line without a token: it fails at the first such line, and every earlier configuration line has a token. Otherwise: the token of the last configuration line, every configuration line having one. The landing status plays no part. |
| `Stamping.Stamped` | src/apple_app_reviews_scraper.py:115-118 | The stamped batch has the same length and order. Each record gains `offset`, `n_batch` (the batch length) and `app_id`. Every other field keeps its value. |
| `Stamping.StampBatch` | src/apple_app_reviews_scraper.py:115-118 | Updating each record of the array in place, in order, leaves exactly the stamped batch. |
| `Retry.Step` | src/apple_app_reviews_scraper.py:69-103 | After one pass of the loop body, a loop still requesting has `retry_count` below `MAX_RETRIES`. |
| `Retry.Backoffs` | src/apple_app_reviews_scraper.py:88-97 | The k-th backoff slept is `BASE_DELAY_SECS * k`, one per counted retry. |
| `Retry.BackoffTotal` | src/apple_app_reviews_scraper.py:91-97 | After `n` retries, the total backoff is `10 * n * (n + 1) / 2` seconds. |
| `Retry.RunShape` | src/apple_app_reviews_scraper.py:62-103 | A run issues at most one request per response, and at least one when it leaves the loop. It leaves the loop only on 200, 404, or the 429 that brings `retry_count` to 5, and the status kept is that of the last response. Earlier responses were neither 200 nor 404. The result is the placeholder unless the status is 200. `retry_count` went up exactly once per 429. |
| `Retry.IgnoredChangeNothing` | src/apple_app_reviews_scraper.py:69-103 | Responses with a status outside {200, 404, 429} leave the loop state unchanged and only cost a request each. |
| `Retry.IgnoredForever` | src/apple_app_reviews_scraper.py:69-103 | Against only such responses, the loop uses them all and still wants another request, whatever their number. |
| `Retry.RateLimitedFrom` | src/apple_app_reviews_scraper.py:69-98 | A run of 429s from `retry_count == k` leaves the loop after exactly `5 - k` requests, with `retry_count == 5` and status 429. |
| `Retry.AllRateLimited` | src/apple_app_reviews_scraper.py:62-98 | A server answering 429 gets exactly 5 requests. The backoffs are 10, 20, 30, 40 and 50 seconds, 150 in all. |
| `Retry.Decided` | src/apple_app_reviews_scraper.py:76-103 | When every earlier response was a 429 or an ignored status, and the 429s left a retry to spare, the first 200 leaves the loop with its body, or the first 404 leaves it with the placeholder. `retry_count` went up once per earlier 429, and no further request is made. |
| `Fetch.NextCursor` | src/apple_app_reviews_scraper.py:107-112 | A missing or null `next` gives the cursor `None`. A link gives the digit group of the reported match, or the failure of `.group` when the pattern does not match. |
| `Fetch.FetchReviews` | src/apple_app_reviews_scraper.py:62-122 | The method's result equals the specification `Fetch` of the same responses. Its ghost request count is the number the loop issued. Its ghost list of backoffs is `10, 20, …, 10 * retry_count`. |
| `Fetch.OutcomeShape` | src/apple_app_reviews_scraper.py:66-122 | A returned status is the status of the last request and is 200, 404 or 429. When it is not 200, the batch is empty and the cursor is `None`. Only a 200 page can fail cursor extraction. Running out of responses means none of them was 200 or 404. |
| `Fetch.AllRateLimitedFetch` | src/apple_app_reviews_scraper.py:62-122 | Five 429s make the call return `([], None, 429)` after exactly 5 requests. |
| `Fetch.NotFoundFetch` | src/apple_app_reviews_scraper.py:69-112 | A 404 reached before the retries run out returns `([], None, 404)` after exactly one request per response up to it. `retry_count` equals the number of 429s before it. |
| `Fetch.SuccessFetch` | src/apple_app_reviews_scraper.py:69-122 | The first 200, reached before the retries run out (any 429s and ignored statuses before it), returns its `data`, in order, stamped with the cursor from its `next`, and status 200. `retry_count` equals the number of 429s before it. If its link does not match the cursor pattern, the call fails instead. |
| `Fetch.PaginationThreading` | src/apple_app_reviews_scraper.py:69-118 | For every call that returns status 200, the batch is the data of the last response, a 200 preceded by no 200 or 404. The cursor returned is the one its `next` yields. Every record carries that cursor as `offset`, the batch size as `n_batch`, and `app_id`, with its other fields unchanged. |
| `Fetch.BackoffThenSuccess` | src/apple_app_reviews_scraper.py:69-98 | Two 429s and then a 200 give three requests, backoffs of 10 and 20 seconds, and the 200's batch stamped with its cursor. |
| `Fetch.OffsetTwentyOne` | src/apple_app_reviews_scraper.py:108 | The link `reviews?offset=21` gives the cursor `21`. |

## Left out

- HTTP requests (lines 14-16 and 72): replaced by a given sequence of responses. The same
  holds for the URLs, headers and query parameters built at lines 40-59. The input
  `offset`, `country`, `app_name`, `token` and `user_agents` go only into those requests,
  so they do not appear in the model.
- `random.choice` of a user agent (lines 15 and 50): it only feeds the request headers.
- Sleeping, the progress bar and the 0.5 s throttle (lines 94-97 and 121): real time is
  not modelled. The backoff durations are recorded as a ghost list instead.
- All `print` diagnostics, including the "fewer than 20 reviews" notice (line 80): they
  have no effect on results.
- JSON decoding (line 77): bodies are given already parsed. A 200 body without `data`,
  a `data` that is not a list, an element of `data` that is not an object (the source
  raises `TypeError` at line 116), and a `next` that is not a string are not modelled. JSON
  numbers are integers only.
- `splitlines()` (line 21): the landing page is given as its lines.
- A general regular-expression engine: only the three patterns used are modelled.
- Aliasing: in the source, `reviews` and `result['data']` are the same list, and the
  stamped dicts are shared with it. The model keeps records as map values in an array,
  and `reviews == result.data` as a loop invariant. Nothing reads `result['data']` after
  stamping, so the results agree.
