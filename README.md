# langchain-openai-limiter: a Dafny model of the quota ledger

The limiter keeps, for every model name and OpenAI API key, the last rate-limit snapshot
OpenAI reported: requests and tokens per minute, the allowance left of each, and when each
window resets. A response hook reads the snapshot out of the response headers and records
it. Before a call the limiter waits until a reservation succeeds. A reservation takes one
request and the call's token estimate, after refilling any window that has expired. It can
also pick the key most likely to have capacity.

This project models the three modules that do this work:

- `limit_info.py` becomes module `LimitInfo`. The store is a `map` held by class
  `LimitInfoStore`, whose methods update it in place like the Python functions update the
  module-level dictionary. Each method's postcondition equates the new store with a pure
  function (`Put`, `Peek`, `Reserve`, `WaitFrom`, `RefreshAll`, or the empty map after a
  reset), and equates or constrains the result: `ChooseKey` and `ChooseKeyIntended` state
  which keys may be returned, in terms of `ClearlyPossible`. The lemmas about those
  functions state what the ledger promises:
  - lazy refill;
  - the exact charge and the strict admission test;
  - counters that never go negative;
  - no other pair changes;
  - the wait loop charges at most once;
  - choosing a key never charges.
- `reset_time_parser.py` becomes module `ResetTimeParser`. The loop of `reset_time_to_ms` is
  a method proved against the recursive `ResetTimeMs`. The `re.split` on the unit pattern is
  a recursive `Split`, proved lossless and proved to alternate text and units. Durations
  written in OpenAI's compact form (`0s100ms`) round-trip to the milliseconds they denote.
- `capture_headers.py` becomes module `CaptureHeaders`, which covers the pure parts:
  - extracting the API key from `authorization`, with its round trip;
  - extracting the snapshot from the `x-ratelimit-*` headers, with errors in the order the
    source reads the headers;
  - settling the model name in both hooks.

  The hooks themselves are methods that record the snapshot in a `LimitInfoStore`, or leave
  it untouched and return the error the Python code would raise.

Python's `int()` on a header value is modelled in module `PyInt`; `Option` and `Result` are
in module `Wrappers`. Times are integer milliseconds, and the current time is a parameter
(`now`). The wait loop takes `clock`, the time at attempt `i`.

Two comparisons in the code are strict, and the model keeps them so:

- A read at exactly the reset time does not refill. The code refills only when the reset
  time is strictly before the current time (limit_info.py lines 64 and 66). `Refreshed` and
  `PeekRefills` use the strict comparison.
- The docstring of `_get_and_decrease_limit` says "not least than `token_count`". The code
  admits only when strictly more tokens remain (line 100). `Admits` and `ReservePresent` use
  the strict comparison.

## Model

| member | source | states |
|---|---|---|
| `PyInt.ParseInt` | langchain_openai_limiter/capture_headers.py:32-35 | `int()` of a header value: succeeds iff the text is one or more digits, or a sign followed by one or more digits; the value is the digits' decimal value, negated after `-`; a value starting with a digit is never negative |
| `PyInt.ParseDecimal` | langchain_openai_limiter/capture_headers.py:32-35 | reading back a counter written in decimal gives the number written |
| `ResetTimeParser.UnitLength` | langchain_openai_limiter/reset_time_parser.py:23 | a delimiter matches exactly when the text starts with `d`, `h`, `m` or `s`, and never runs past the text |
| `ResetTimeParser.Split` | langchain_openai_limiter/reset_time_parser.py:26 | `re.split` with one capturing group gives an odd number of pieces |
| `ResetTimeParser.SplitShape` | langchain_openai_limiter/reset_time_parser.py:23-26 | even positions of the split hold text with no unit character; odd positions hold a key of the unit table |
| `ResetTimeParser.SplitJoin` | langchain_openai_limiter/reset_time_parser.py:26 | the pieces of the split, concatenated, give the input back |
| `ResetTimeParser.MsIsOneUnit` | langchain_openai_limiter/reset_time_parser.py:23 | `ms` is split off as one unit, never as `m` then `s` |
| `ResetTimeParser.NonEmpty` | langchain_openai_limiter/reset_time_parser.py:24-28 | the filtered pieces contain no empty string, and every non-empty piece occurs exactly as often as before |
| `ResetTimeParser.NonEmptyConcat` | langchain_openai_limiter/reset_time_parser.py:27-28 | the filter keeps the order: filtering a concatenation is concatenating the filtered halves |
| `ResetTimeParser.RatioTable` | langchain_openai_limiter/reset_time_parser.py:8-14 | the table has exactly the five units, and each factor is the next smaller unit's times 1000, 60, 60 or 24 |
| `ResetTimeParser.PairValue` | langchain_openai_limiter/reset_time_parser.py:31-34 | one pair reads iff its number is an integer and its unit is in the table, giving their product; `int` runs first, so a bad number is the error even when the unit is bad too |
| `ResetTimeParser.SumPairs` | langchain_openai_limiter/reset_time_parser.py:30-35 | the pairs sum without error iff every pair reads; a failure is never the piece-count assertion |
| `ResetTimeParser.ResetTimeMs` | langchain_openai_limiter/reset_time_parser.py:17-35 | the result is the piece-count assertion iff the filtered pieces are odd in number, and a value iff they are even and every pair reads |
| `ResetTimeParser.ResetTimeToMs` | langchain_openai_limiter/reset_time_parser.py:17-35 | split, filter, assert an even piece count, then accumulate: the result is exactly `ResetTimeMs`, the sum over (number, unit) pairs or the first error |
| `ResetTimeParser.AccumulatePairs` | langchain_openai_limiter/reset_time_parser.py:30-35 | the loop adds `int(number) * _RATIO[unit]` pair by pair and returns exactly `SumPairs`, stopping at the first pair that raises |
| `ResetTimeParser.SumPairsStep` | langchain_openai_limiter/reset_time_parser.py:31-34 | one loop turn: the pairs from `i` on are pair `i` followed by the pairs after it |
| `ResetTimeParser.NeverUnknownUnit` | langchain_openai_limiter/reset_time_parser.py:29-35 | the `_RATIO` lookup never raises: every failure is the assertion or `int` |
| `ResetTimeParser.RenderRoundTrip` | langchain_openai_limiter/reset_time_parser.py:17-35 | a duration written in compact form reads back as the milliseconds it denotes, never negative |
| `ResetTimeParser.TotalNonNegative` | langchain_openai_limiter/reset_time_parser.py:30-35 | a well-formed duration is never negative |
| `ResetTimeParser.ParseConcat` | langchain_openai_limiter/reset_time_parser.py:30-35 | two well-formed durations written one after the other read as the sum of the two |
| `ResetTimeParser.ExampleZeroSecondsHundredMs` | langchain_openai_limiter/reset_time_parser.py:20 | `0s100ms` is 100 ms |
| `ResetTimeParser.ExampleThreeSecondsTenMs` | langchain_openai_limiter/reset_time_parser.py:20 | `3s10ms` is 3010 ms |
| `ResetTimeParser.ExampleOneMinute` | langchain_openai_limiter/reset_time_parser.py:20 | `1m` is 60000 ms |
| `ResetTimeParser.EmptyIsZero` | langchain_openai_limiter/reset_time_parser.py:24-30 | the empty string reads as 0 |
| `ResetTimeParser.NumberWithoutUnitFails` | langchain_openai_limiter/reset_time_parser.py:29 | `5` fails the even-count assertion |
| `ResetTimeParser.UnitWithoutNumberFails` | langchain_openai_limiter/reset_time_parser.py:29 | `ms` fails the even-count assertion |
| `ResetTimeParser.RepeatedUnitFails` | langchain_openai_limiter/reset_time_parser.py:29 | `1msms` fails the even-count assertion |
| `ResetTimeParser.FractionFails` | langchain_openai_limiter/reset_time_parser.py:32 | `1.5s` fails in `int` on `1.5` |
| `ResetTimeParser.UnitFirstFails` | langchain_openai_limiter/reset_time_parser.py:32 | `s5` fails in `int` on the unit `s` |
| `LimitInfo.Put` | langchain_openai_limiter/limit_info.py:36-44 | the snapshot is stored under (model, key); every other pair reads as before; the model is added to the outer keys |
| `LimitInfo.Refreshed` | langchain_openai_limiter/limit_info.py:63-67 | the refill moves nothing but the remaining allowances, restores the total of each dimension whose reset time is strictly before `now`, and leaves a snapshot whose windows are both open unchanged |
| `LimitInfo.Peek` | langchain_openai_limiter/limit_info.py:54-68 | the read gives the refreshed stored snapshot or `None`; an absent pair leaves the store as it was; a present one is written back as returned; no other pair changes |
| `LimitInfo.PeekRefills` | langchain_openai_limiter/limit_info.py:54-68 | a read refills each dimension whose reset time is strictly before `now`, leaves the totals and reset times alone, and writes back what it returns |
| `LimitInfo.PeekAbsent` | langchain_openai_limiter/limit_info.py:61-68 | reading a pair never stored returns `None` and changes nothing |
| `LimitInfo.PeekFrame` | langchain_openai_limiter/limit_info.py:54-68 | a read changes no other pair |
| `LimitInfo.ExpiredWindowRefillsForever` | langchain_openai_limiter/limit_info.py:64-65 | once the request window or the token window has expired, every later read restores that window's full total, whatever was charged in between |
| `LimitInfo.RefreshedIdempotent` | langchain_openai_limiter/limit_info.py:64-67 | refilling twice at one moment is refilling once, and a refill changes only the remaining allowances |
| `LimitInfo.SeenAfterPeek` | langchain_openai_limiter/limit_info.py:61-68 | after a read, reading any pair of that model at the same moment sees what it saw before |
| `LimitInfo.Reserve` | langchain_openai_limiter/limit_info.py:90-106 | the call runs iff the pair is unknown or its refreshed snapshot has a request and strictly more tokens than the cost; no other pair changes |
| `LimitInfo.ReserveAbsent` | langchain_openai_limiter/limit_info.py:97-106 | a pair never seen is admitted, and the store is unchanged |
| `LimitInfo.ReservePresent` | langchain_openai_limiter/limit_info.py:90-106 | a known pair is admitted iff, after the refill, a request is left and strictly more tokens than the cost; admission takes exactly one request and the cost; refusal charges nothing; no other pair changes |
| `LimitInfo.ReserveKeepsCountersNonNegative` | langchain_openai_limiter/limit_info.py:97-104 | with a sane snapshot and a non-negative cost, an admission leaves at least zero requests and at least one token |
| `LimitInfo.ReservePreservesSane` | langchain_openai_limiter/limit_info.py:90-106 | if every allowance in the store lies between zero and its total, it still does after a reservation with a non-negative cost |
| `LimitInfo.LastRequestAdmitsOnce` | langchain_openai_limiter/limit_info.py:94-106 | with one request left and the window open, a second reservation is refused |
| `LimitInfo.ReserveAdmitsOpen` | langchain_openai_limiter/limit_info.py:97-105 | while both windows are open, an admissible call is charged in place |
| `LimitInfo.ReserveRefusesOpen` | langchain_openai_limiter/limit_info.py:96-106 | while both windows are open, an inadmissible call leaves the store exactly as it was |
| `LimitInfo.ThreeCallsThenRefusal` | langchain_openai_limiter/limit_info.py:90-106 | 3 requests and 1000 tokens admit three calls of 100 tokens, leaving 700 tokens and no request; a fourth call is then refused with no change |
| `LimitInfo.ReserveEffect` | langchain_openai_limiter/limit_info.py:95-106 | one attempt on a known pair: an admission charges once after refills; a refusal only refills |
| `LimitInfo.MaxAwaitCount` | langchain_openai_limiter/limit_info.py:122 | `int(timeout / sleep)` truncates toward zero: its magnitude is the number of whole sleeps in the timeout, and it is negative only when the signs differ |
| `LimitInfo.Attempts` | langchain_openai_limiter/limit_info.py:122-123 | `range(max_await_count)` runs no more times than whole sleeps fit in the timeout, all of them when the signs agree, and never when they differ |
| `LimitInfo.AttemptsMade` | langchain_openai_limiter/limit_info.py:123-127 | with a positive sleep every attempt runs; with a negative one at most one does, because `time.sleep` raises after the first refusal |
| `LimitInfo.AttemptsBound` | langchain_openai_limiter/limit_info.py:122-123 | for a positive sleep, the attempt count is the number of whole sleeps that fit in the timeout, and zero for a negative timeout |
| `LimitInfo.WaitFrom` | langchain_openai_limiter/limit_info.py:123-128 | no attempt left is a time-out with no change; an unknown pair is admitted at the first attempt with no change; no other pair ever changes |
| `LimitInfo.WaitFromEffect` | langchain_openai_limiter/limit_info.py:123-128 | from attempt `i` on: no attempt left means a timeout with no change; an unknown pair is admitted at once; a known pair is charged exactly once if admitted, else only refilled; no other pair changes |
| `LimitInfo.WaitLoopOutcome` | langchain_openai_limiter/limit_info.py:116-128 | the whole wait loop: zero attempts time out untouched; otherwise at most one charge happens, and only to the pair waited on |
| `LimitInfo.ClearlyPossible` | langchain_openai_limiter/limit_info.py:155-161 | a key is clearly possible iff it is one of the keys, and its refreshed snapshot is absent or admits the call |
| `LimitInfo.RefreshAllEffect` | langchain_openai_limiter/limit_info.py:150-153 | reading every key refills exactly the snapshots of those keys under the model, and what is seen stays the same |
| `LimitInfo.ChooseOnlyRefills` | langchain_openai_limiter/limit_info.py:148-153 | choosing a key never charges a counter: every snapshot is refilled at most |
| `LimitInfo.FallbackIsNotAKey` | langchain_openai_limiter/limit_info.py:166 | when every key is longer than one character, the fallback as written never returns one of the keys |
| `LimitInfo.ExhaustedKeysFallBack` | langchain_openai_limiter/limit_info.py:155-166 | when every key has no request left in an open window, no key is clearly possible |
| `LimitInfo.ResetForgetsEverything` | langchain_openai_limiter/limit_info.py:175-179 | after the store is cleared, a read returns `None` and a reservation is admitted, neither changing the store |
| `LimitInfo.LimitInfoStore.constructor` | langchain_openai_limiter/limit_info.py:30 | the store starts empty |
| `LimitInfo.LimitInfoStore.SetLimitInfo` | langchain_openai_limiter/limit_info.py:36-44 | the new store is `Put` of the old one |
| `LimitInfo.LimitInfoStore.GetLimitInfo` | langchain_openai_limiter/limit_info.py:54-78 | the result and the new store are `Peek` of the old store |
| `LimitInfo.LimitInfoStore.GetAndDecreaseLimit` | langchain_openai_limiter/limit_info.py:90-106 | the verdict and the new store are `Reserve` of the old store |
| `LimitInfo.LimitInfoStore.WaitForLimit` | langchain_openai_limiter/limit_info.py:116-128 | a zero sleep raises `ZeroDivisionError` untouched; otherwise the loop returns on the first admission; after a refusal a negative sleep raises `ValueError`, and running out of attempts raises `TimeoutError`; the store is what `WaitFrom` gives over the attempts that run |
| `LimitInfo.LimitInfoStore.CollectLimitInfos` | langchain_openai_limiter/limit_info.py:150-153 | one refreshed snapshot per key, in order, and the store with every key read |
| `LimitInfo.FilterClearlyPossible` | langchain_openai_limiter/limit_info.py:155-161 | the loop collects exactly `ClearlyPossible`, in key order, and leaves the loop variable at the last key |
| `LimitInfo.LimitInfoStore.ChooseKey` | langchain_openai_limiter/limit_info.py:144-166 | as written: no keys fail the assertion; a clearly possible key is chosen when there is one; otherwise one character of the last key, or `IndexError` when that key is empty |
| `LimitInfo.LimitInfoStore.ChooseKeyIntended` | langchain_openai_limiter/limit_info.py:144-166 | as intended: the same, except that the fallback is one of the keys |
| `LimitInfo.LimitInfoStore.ResetLimitInfo` | langchain_openai_limiter/limit_info.py:175-179 | the store is empty afterwards |
| `CaptureHeaders.SplitOn` | langchain_openai_limiter/capture_headers.py:20 | `str.split(" ")` gives one piece more than there are spaces |
| `CaptureHeaders.SplitOnPiecesLackSep` | langchain_openai_limiter/capture_headers.py:20 | no piece of the split holds a space |
| `CaptureHeaders.JoinSplitOn` | langchain_openai_limiter/capture_headers.py:20 | the pieces joined with spaces give the input back |
| `CaptureHeaders.SplitOnTwo` | langchain_openai_limiter/capture_headers.py:20 | `a + " " + b` splits into exactly `[a, b]` when neither holds a space |
| `CaptureHeaders.ExtractApiKey` | langchain_openai_limiter/capture_headers.py:15-21 | a key is extracted iff the value starts with `Bearer` and holds exactly one space; without the prefix the error is the assertion |
| `CaptureHeaders.ApiKeyIsTail` | langchain_openai_limiter/capture_headers.py:19-21 | the key is everything after the only space, and holds no space |
| `CaptureHeaders.ApiKeyRoundTrip` | langchain_openai_limiter/capture_headers.py:15-21 | `Bearer <key>` yields the key, for every key without a space |
| `CaptureHeaders.BearerNeedsNoSpace` | langchain_openai_limiter/capture_headers.py:19-20 | the prefix test does not require a space after `Bearer`: `Bearerx y` yields `y` |
| `CaptureHeaders.IntHeader` | langchain_openai_limiter/capture_headers.py:32-35 | a counter header reads iff it is present and an integer; a missing one is `KeyError`, a malformed one is `ValueError` |
| `CaptureHeaders.ResetHeader` | langchain_openai_limiter/capture_headers.py:36-39 | a reset header reads iff it is present and parses; the reset moment is `now` plus the duration |
| `CaptureHeaders.HeaderModel` | langchain_openai_limiter/capture_headers.py:31 | the model name is present iff the response has an `openai-model` header, and is that header's value |
| `CaptureHeaders.ExtractLimitInfo` | langchain_openai_limiter/capture_headers.py:24-47 | succeeds iff all four counters and both durations read; gives the model header and each field from its header; a missing request limit is the first error |
| `CaptureHeaders.ExtractFromValues` | langchain_openai_limiter/capture_headers.py:30-47 | headers whose values read as given produce exactly that snapshot, the reset moments being `now` plus the durations |
| `CaptureHeaders.CarriedHeadersRead` | langchain_openai_limiter/capture_headers.py:32-37 | headers that carry decimal counters and compact durations read as those numbers and those non-negative milliseconds |
| `CaptureHeaders.ResolveModel` | langchain_openai_limiter/capture_headers.py:60-63 | the model name is missing iff both the response header and the fallback are missing; the response header wins |
| `CaptureHeaders.Observe` | langchain_openai_limiter/capture_headers.py:59-63 | the hook succeeds iff `authorization` is present and yields a key, the limit headers read, and a model is found; the result carries the key, the snapshot and the model |
| `CaptureHeaders.ObserveSteps` | langchain_openai_limiter/capture_headers.py:59-63 | a key that reads, limit headers that read and a settled model compose into the observation |
| `CaptureHeaders.ObserveOpenAIResponse` | langchain_openai_limiter/capture_headers.py:59-64 | end to end: a `Bearer` request and readable response headers give that key, that snapshot and the settled model |
| `CaptureHeaders.ObserveWithoutModelFails` | langchain_openai_limiter/capture_headers.py:61-63 | with no model in the response or the request, the hook fails its assertion even when everything else reads |
| `CaptureHeaders.Record` | langchain_openai_limiter/capture_headers.py:64 | an observation is stored with `Put`; a failure leaves the store alone and is returned |
| `CaptureHeaders.ResponseHook` | langchain_openai_limiter/capture_headers.py:55-64 | the synchronous hook, with the request body's model as the fallback: store updated by `Put` on success, untouched on failure |
| `CaptureHeaders.ArequestRawHook` | langchain_openai_limiter/capture_headers.py:120-128 | the asynchronous hook, with the request's `x-model` header as the fallback: store updated by `Put` on success, untouched on failure |

## Left out

- The thread lock and the asyncio lock, and every `a`-prefixed async twin (`aset_limit_info`,
  `aget_limit_info`, `_aget_and_decrease_limit`, `await_for_limit`, `achoose_key`). Each
  operation is one atomic step on the store. Interleavings are not modelled.
- `datetime.now()` and `timedelta`: times are integer milliseconds, and the current time is a
  parameter.
- `time.sleep` and `asyncio.sleep`: each wait-loop attempt reads the time from the `clock`
  parameter. Only the `ValueError` that a negative length raises is modelled.
- `LimitInfo.LimitInfoStore.CollectLimitInfos`, `ChooseKey` and `ChooseKeyIntended`: every
  key is read at the one moment `now`, where the source calls `datetime.now()` again for each
  key (limit_info.py:61). A window that expires between two of those reads is refilled for
  the later keys only in the source.
- `LimitInfo.Attempts`: `int(timeout / sleep)` is computed on integer milliseconds with
  truncation toward zero. Floating-point rounding of the division, and an infinite or NaN
  timeout, are not modelled.
- `LimitInfo.LimitInfoStore.ChooseKey` and `ChooseKeyIntended`: `random.choice` becomes a
  nondeterministic choice. The postconditions say which values are possible; uniformity of
  the distribution is not stated.
- Attaching and wrapping hooks (`_attach_to_session`, `_attach_to_session_getter`,
  `_attach_sync_session_hooks`, `_attach_async_session_hooks`, the monkey patching of
  `arequest_raw`). This is plumbing into the `requests`, `aiohttp` and `openai` libraries,
  which are not part of this model.
- `json.loads(response.request.body).get("model")`: JSON decoding is not modelled. The
  request body's model is the `requestBodyModel` parameter of `ResponseHook`, and invalid
  JSON is not modelled.
- Header dictionaries are case-insensitive in `requests` and `aiohttp`. Here they are plain
  maps keyed by the lower-case names the source uses.
- `PyInt.ParseInt`: Python's `int()` also accepts surrounding whitespace, underscores between
  digits and non-ASCII decimal digits. Only an optional sign followed by ASCII digits is
  modelled, which is what OpenAI sends.
- Python's mutable snapshot objects: `_get_limit_info` returns the stored object itself, so
  a caller holding it sees later charges. The model returns values and writes the store back
  explicitly.
- The LangChain wrapper classes that call the limiter, the package `__init__`, `setup.py` and
  the tests are not part of this model.

## Findings

| source | as written | input that shows it | evidently intended | confidence | as-written member | corrected member |
|---|---|---|---|---|---|---|
| langchain_openai_limiter/limit_info.py:166 | when no key is clearly possible, `random.choice` is applied to the loop variable `api_key`, the last key string; the result is one of its characters | keys `["sk-aaa", "sk-bbb"]`, both with no request left inside an open window: the result is a single character such as `"s"`, which is not a key, and `""` as the last key raises `IndexError` | pick one of `api_keys` at random, as the comment on line 165 says | high; not executed | `LimitInfo.LimitInfoStore.ChooseKey`, `LimitInfo.FallbackIsNotAKey` | `LimitInfo.LimitInfoStore.ChooseKeyIntended` |
