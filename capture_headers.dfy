/** The response hooks: read the API key from the request's `authorization` header, the
    rate-limit snapshot from the response headers, settle the model name, and record the
    snapshot in the ledger. */
module CaptureHeaders {
  import opened Wrappers
  import opened PyInt
  import opened ResetTimeParser
  import opened LimitInfo

  // ---------------------------------------------------------------------------------
  // `str.split(" ")`

  /** The number of occurrences of `c` in `s`. */
  function Count(s: string, c: char): nat {
    if s == [] then 0 else (if s[0] == c then 1 else 0) + Count(s[1..], c)
  }

  /** Python's `s.split(sep)` for a one-character separator: the pieces between separators,
      empty ones included, so there is always one piece more than there are separators. */
  function SplitOn(s: string, sep: char): (r: seq<string>)
    ensures |r| == Count(s, sep) + 1
  {
    if s == [] then [""]
    else if s[0] == sep then [""] + SplitOn(s[1..], sep)
    else
      var rest := SplitOn(s[1..], sep);
      [[s[0]] + rest[0]] + rest[1..]
  }

  /** `sep.join(parts)`. */
  function JoinWith(parts: seq<string>, sep: char): string {
    if parts == [] then ""
    else if |parts| == 1 then parts[0]
    else parts[0] + [sep] + JoinWith(parts[1..], sep)
  }

  /** No piece of a split holds the separator. */
  lemma {:induction false} SplitOnPiecesLackSep(s: string, sep: char)
    ensures forall i :: 0 <= i < |SplitOn(s, sep)| ==> sep !in SplitOn(s, sep)[i]
  {
    if s != [] {
      SplitOnPiecesLackSep(s[1..], sep);
      var rest := SplitOn(s[1..], sep);
      if s[0] != sep {
        var r := SplitOn(s, sep);
        forall i | 0 <= i < |r| ensures sep !in r[i] {
          if i == 0 {
            assert r[0] == [s[0]] + rest[0];
          } else {
            assert r[i] == rest[i];
          }
        }
      }
    }
  }

  lemma JoinWithGlue(c: char, rest: seq<string>, sep: char)
    requires |rest| >= 1
    ensures JoinWith([[c] + rest[0]] + rest[1..], sep) == [c] + JoinWith(rest, sep)
  {
    var parts := [[c] + rest[0]] + rest[1..];
    assert parts[1..] == rest[1..];
  }

  /** Joining the pieces with the separator gives the string back. */
  lemma {:induction false} JoinSplitOn(s: string, sep: char)
    ensures JoinWith(SplitOn(s, sep), sep) == s
  {
    if s != [] {
      JoinSplitOn(s[1..], sep);
      var rest := SplitOn(s[1..], sep);
      if s[0] == sep {
        assert ([""] + rest)[1..] == rest;
        assert JoinWith([""] + rest, sep) == "" + [sep] + JoinWith(rest, sep);
        assert s == [sep] + s[1..];
      } else {
        JoinWithGlue(s[0], rest, sep);
        assert s == [s[0]] + s[1..];
      }
    }
  }

  /** A string without the separator splits into itself alone, and a separator-free prefix
      is glued onto the first piece of what follows. */
  lemma {:induction false} SplitOnPrefix(a: string, t: string, sep: char)
    requires sep !in a
    ensures SplitOn(a + t, sep) == [a + SplitOn(t, sep)[0]] + SplitOn(t, sep)[1..]
  {
    if a != [] {
      assert (a + t)[0] == a[0];
      assert (a + t)[1..] == a[1..] + t;
      SplitOnPrefix(a[1..], t, sep);
      var x := SplitOn(t, sep);
      var rest := SplitOn(a[1..] + t, sep);
      assert rest[0] == a[1..] + x[0] && rest[1..] == x[1..];
      assert SplitOn(a + t, sep) == [[a[0]] + rest[0]] + rest[1..];
      assert [a[0]] + (a[1..] + x[0]) == a + x[0];
    } else {
      assert a + t == t;
      assert SplitOn(t, sep) == [SplitOn(t, sep)[0]] + SplitOn(t, sep)[1..];
      assert a + SplitOn(t, sep)[0] == SplitOn(t, sep)[0];
    }
  }

  /** `(a + sep + b).split(sep) == [a, b]` when neither side holds the separator. */
  lemma SplitOnTwo(a: string, b: string, sep: char)
    requires sep !in a && sep !in b
    ensures SplitOn(a + [sep] + b, sep) == [a, b]
  {
    SplitOnPrefix(b, "", sep);
    assert b + "" == b;
    assert SplitOn(b, sep) == [b];
    assert SplitOn([sep] + b, sep) == [""] + SplitOn(b, sep);
    SplitOnPrefix(a, [sep] + b, sep);
    assert a + [sep] + b == a + ([sep] + b);
    assert a + "" == a;
  }

  // ---------------------------------------------------------------------------------
  // The API key

  const BEARER: string := "Bearer"
  const AUTHORIZATION: string := "authorization"

  /** `AssertionError` when the value does not start with `Bearer`; `ValueError` when it
      does not split on spaces into exactly two parts. */
  datatype ApiKeyError = NotBearer | WrongPartCount(parts: nat)

  /** `_extract_openai_api_key`: the text after the one space of a `Bearer` value. */
  function ExtractApiKey(authorization: string): (r: Result<string, ApiKeyError>)
    ensures r.Success? <==> BEARER <= authorization && Count(authorization, ' ') == 1
    ensures r.Failure? && !(BEARER <= authorization) ==> r.error == NotBearer
  {
    if !(BEARER <= authorization) then Failure(NotBearer)
    else
      var parts := SplitOn(authorization, ' ');
      if |parts| != 2 then Failure(WrongPartCount(|parts|)) else Success(parts[1])
  }

  /** The key is everything after the value's only space, and holds no space itself. */
  lemma ApiKeyIsTail(authorization: string)
    requires ExtractApiKey(authorization).Success?
    ensures var key := ExtractApiKey(authorization).value;
      && ' ' !in key
      && |key| < |authorization|
      && authorization == authorization[..|authorization| - |key| - 1] + " " + key
  {
    var parts := SplitOn(authorization, ' ');
    SplitOnPiecesLackSep(authorization, ' ');
    JoinSplitOn(authorization, ' ');
    assert parts[1..] == [parts[1]];
    assert authorization == parts[0] + " " + parts[1];
    assert authorization[..|authorization| - |parts[1]| - 1] == parts[0];
  }

  /** Round trip: the header `Bearer <key>` yields the key, for any key without a space. */
  lemma ApiKeyRoundTrip(key: string)
    requires ' ' !in key
    ensures ExtractApiKey(BEARER + " " + key) == Success(key)
  {
    assert ' ' !in BEARER;
    SplitOnTwo(BEARER, key, ' ');
    assert BEARER + [' '] + key == BEARER + " " + key;
  }

  /** The prefix test has no space in it: `Bearerx y` passes and yields `y`. */
  lemma BearerNeedsNoSpace(authorization: string)
    requires authorization == "Bearerx y"
    ensures ExtractApiKey(authorization) == Success("y")
  {
    assert authorization == "Bearerx" + [' '] + "y";
    SplitOnTwo("Bearerx", "y", ' ');
  }

  // ---------------------------------------------------------------------------------
  // The limit headers

  /** Header names as the client library hands them over. */
  type Headers = map<string, string>

  const OPENAI_MODEL: string := "openai-model"
  const LIMIT_REQUESTS: string := "x-ratelimit-limit-requests"
  const LIMIT_TOKENS: string := "x-ratelimit-limit-tokens"
  const REMAINING_REQUESTS: string := "x-ratelimit-remaining-requests"
  const REMAINING_TOKENS: string := "x-ratelimit-remaining-tokens"
  const RESET_REQUESTS: string := "x-ratelimit-reset-requests"
  const RESET_TOKENS: string := "x-ratelimit-reset-tokens"
  const X_MODEL: string := "x-model"

  /** `KeyError` for a missing header, `ValueError` from `int()`, or a failure of
      `reset_time_to_ms`, each naming the header. */
  datatype ExtractError =
    | MissingHeader(name: string)
    | BadInteger(name: string, value: string)
    | BadResetTime(name: string, error: ParseError)

  /** `int(headers[name])`. */
  function IntHeader(h: Headers, name: string): (r: Result<int, ExtractError>)
    ensures r.Success? <==> name in h && ParseInt(h[name]).Some?
    ensures r.Success? ==> r.value == ParseInt(h[name]).value
    ensures r.Failure? ==> r.error == (if name in h then BadInteger(name, h[name]) else MissingHeader(name))
  {
    if name !in h then Failure(MissingHeader(name))
    else match ParseInt(h[name])
      case None => Failure(BadInteger(name, h[name]))
      case Some(n) => Success(n)
  }

  /** `current_time + timedelta(milliseconds=reset_time_to_ms(headers[name]))`. */
  function ResetHeader(h: Headers, name: string, now: int): (r: Result<int, ExtractError>)
    ensures r.Success? <==> name in h && ResetTimeMs(h[name]).Success?
    ensures r.Success? ==> r.value == now + ResetTimeMs(h[name]).value
    ensures r.Failure? ==> r.error == (if name in h then BadResetTime(name, ResetTimeMs(h[name]).error) else MissingHeader(name))
  {
    if name !in h then Failure(MissingHeader(name))
    else match ResetTimeMs(h[name])
      case Failure(e) => Failure(BadResetTime(name, e))
      case Success(ms) => Success(now + ms)
  }

  /** `headers.get("openai-model")`. */
  function HeaderModel(h: Headers): (r: Option<string>)
    ensures r.Some? <==> OPENAI_MODEL in h
    ensures r.Some? ==> r.value == h[OPENAI_MODEL]
  {
    if OPENAI_MODEL in h then Some(h[OPENAI_MODEL]) else None
  }

  /** All four counters read as integers. */
  predicate CountsParse(h: Headers) {
    && IntHeader(h, LIMIT_REQUESTS).Success? && IntHeader(h, LIMIT_TOKENS).Success?
    && IntHeader(h, REMAINING_REQUESTS).Success? && IntHeader(h, REMAINING_TOKENS).Success?
  }

  /** Both reset durations parse. */
  predicate ResetsParse(h: Headers) {
    && ResetHeader(h, RESET_REQUESTS, 0).Success? && ResetHeader(h, RESET_TOKENS, 0).Success?
  }

  /** `_extract_limit_info`: the model header, if any, and the snapshot, the reset moments
      being `now` plus the parsed durations. Headers are read in the source's order, so the
      first one missing or malformed is the one reported. */
  function ExtractLimitInfo(h: Headers, now: int): (r: Result<(Option<string>, Info), ExtractError>)
    ensures r.Success? <==> CountsParse(h) && ResetsParse(h)
    ensures r.Success? ==> r.value.0 == HeaderModel(h)
    ensures r.Success? ==> var e := r.value.1;
      && e.rpmTotal == ParseInt(h[LIMIT_REQUESTS]).value
      && e.tpmTotal == ParseInt(h[LIMIT_TOKENS]).value
      && e.rpmRemain == ParseInt(h[REMAINING_REQUESTS]).value
      && e.tpmRemain == ParseInt(h[REMAINING_TOKENS]).value
      && e.rpmResetTime == now + ResetTimeMs(h[RESET_REQUESTS]).value
      && e.tpmResetTime == now + ResetTimeMs(h[RESET_TOKENS]).value
    ensures LIMIT_REQUESTS !in h ==> r == Failure(MissingHeader(LIMIT_REQUESTS))
  {
    var modelName := HeaderModel(h);
    var rpmTotal :- IntHeader(h, LIMIT_REQUESTS);
    var tpmTotal :- IntHeader(h, LIMIT_TOKENS);
    var rpmRemain :- IntHeader(h, REMAINING_REQUESTS);
    var tpmRemain :- IntHeader(h, REMAINING_TOKENS);
    var rpmResetTime :- ResetHeader(h, RESET_REQUESTS, now);
    var tpmResetTime :- ResetHeader(h, RESET_TOKENS, now);
    Success((modelName, Info(tpmTotal, tpmRemain, rpmTotal, rpmRemain, rpmResetTime, tpmResetTime)))
  }

  /** Headers that carry the given counters in decimal, the given reset durations in compact
      form and the given model header; other headers may be present too. */
  predicate CarriesRateLimits(h: Headers, model: Option<string>, rpmTotal: nat, tpmTotal: nat, rpmRemain: nat, tpmRemain: nat,
                              rpmReset: seq<Term>, tpmReset: seq<Term>)
  {
    && LIMIT_REQUESTS in h && h[LIMIT_REQUESTS] == DecimalString(rpmTotal)
    && LIMIT_TOKENS in h && h[LIMIT_TOKENS] == DecimalString(tpmTotal)
    && REMAINING_REQUESTS in h && h[REMAINING_REQUESTS] == DecimalString(rpmRemain)
    && REMAINING_TOKENS in h && h[REMAINING_TOKENS] == DecimalString(tpmRemain)
    && RESET_REQUESTS in h && h[RESET_REQUESTS] == Render(rpmReset)
    && RESET_TOKENS in h && h[RESET_TOKENS] == Render(tpmReset)
    && HeaderModel(h) == model
  }

  /** The six values `_extract_limit_info` reads, as they read: four integers and two
      parsed durations, and the model header. */
  predicate ReadsAs(h: Headers, model: Option<string>, rpmTotal: int, tpmTotal: int, rpmRemain: int, tpmRemain: int,
                    rpmMs: int, tpmMs: int)
  {
    && LIMIT_REQUESTS in h && ParseInt(h[LIMIT_REQUESTS]) == Some(rpmTotal)
    && LIMIT_TOKENS in h && ParseInt(h[LIMIT_TOKENS]) == Some(tpmTotal)
    && REMAINING_REQUESTS in h && ParseInt(h[REMAINING_REQUESTS]) == Some(rpmRemain)
    && REMAINING_TOKENS in h && ParseInt(h[REMAINING_TOKENS]) == Some(tpmRemain)
    && RESET_REQUESTS in h && ResetTimeMs(h[RESET_REQUESTS]) == Success(rpmMs)
    && RESET_TOKENS in h && ResetTimeMs(h[RESET_TOKENS]) == Success(tpmMs)
    && HeaderModel(h) == model
  }

  lemma CountsFromValues(h: Headers, model: Option<string>, rpmTotal: int, tpmTotal: int, rpmRemain: int, tpmRemain: int,
                         rpmMs: int, tpmMs: int)
    requires ReadsAs(h, model, rpmTotal, tpmTotal, rpmRemain, tpmRemain, rpmMs, tpmMs)
    ensures CountsParse(h)
  {
    assert IntHeader(h, LIMIT_REQUESTS).Success?;
    assert IntHeader(h, LIMIT_TOKENS).Success?;
    assert IntHeader(h, REMAINING_REQUESTS).Success?;
    assert IntHeader(h, REMAINING_TOKENS).Success?;
  }

  lemma ResetsFromValues(h: Headers, model: Option<string>, rpmTotal: int, tpmTotal: int, rpmRemain: int, tpmRemain: int,
                         rpmMs: int, tpmMs: int)
    requires ReadsAs(h, model, rpmTotal, tpmTotal, rpmRemain, tpmRemain, rpmMs, tpmMs)
    ensures ResetsParse(h)
  {
    assert ResetHeader(h, RESET_REQUESTS, 0).Success?;
    assert ResetHeader(h, RESET_TOKENS, 0).Success?;
  }

  /** Headers whose values read as given produce exactly the snapshot they give, the reset
      moments being `now` plus the durations. */
  lemma ExtractFromValues(h: Headers, model: Option<string>, now: int, rpmTotal: int, tpmTotal: int, rpmRemain: int, tpmRemain: int,
                          rpmMs: int, tpmMs: int)
    requires ReadsAs(h, model, rpmTotal, tpmTotal, rpmRemain, tpmRemain, rpmMs, tpmMs)
    ensures ExtractLimitInfo(h, now)
      == Success((model, Info(tpmTotal, tpmRemain, rpmTotal, rpmRemain, now + rpmMs, now + tpmMs)))
  {
    CountsFromValues(h, model, rpmTotal, tpmTotal, rpmRemain, tpmRemain, rpmMs, tpmMs);
    ResetsFromValues(h, model, rpmTotal, tpmTotal, rpmRemain, tpmRemain, rpmMs, tpmMs);
    var r := ExtractLimitInfo(h, now);
    assert r.Success?;
    var e := r.value.1;
    assert e.rpmTotal == rpmTotal && e.tpmTotal == tpmTotal;
    assert e.rpmRemain == rpmRemain && e.tpmRemain == tpmRemain;
    assert e.rpmResetTime == now + rpmMs && e.tpmResetTime == now + tpmMs;
    assert e == Info(tpmTotal, tpmRemain, rpmTotal, rpmRemain, now + rpmMs, now + tpmMs);
    assert r.value == (model, e);
  }

  /** Round trip of each header: decimal counters read back as the numbers written, and
      compact durations as the milliseconds they denote, never negative. */
  lemma CarriedHeadersRead(h: Headers, model: Option<string>, rpmTotal: nat, tpmTotal: nat, rpmRemain: nat, tpmRemain: nat,
                           rpmReset: seq<Term>, tpmReset: seq<Term>)
    requires CarriesRateLimits(h, model, rpmTotal, tpmTotal, rpmRemain, tpmRemain, rpmReset, tpmReset)
    requires ValidTerms(rpmReset) && ValidTerms(tpmReset)
    ensures ReadsAs(h, model, rpmTotal, tpmTotal, rpmRemain, tpmRemain, Total(rpmReset), Total(tpmReset))
    ensures Total(rpmReset) >= 0 && Total(tpmReset) >= 0
  {
    ParseDecimal(rpmTotal);
    ParseDecimal(tpmTotal);
    ParseDecimal(rpmRemain);
    ParseDecimal(tpmRemain);
    RenderRoundTrip(rpmReset);
    RenderRoundTrip(tpmReset);
  }

  // ---------------------------------------------------------------------------------
  // The hooks

  /** What a hook can fail with: no `authorization` header (`KeyError`), a bad key, bad
      limit headers, or no model name anywhere (`AssertionError`). */
  datatype HookError =
    | MissingAuthorization
    | BadApiKey(keyError: ApiKeyError)
    | BadHeaders(headerError: ExtractError)
    | NoModelName

  /** What a hook records: the snapshot under the model and the key. */
  datatype Observation = Observation(model: string, apiKey: string, info: Info)

  /** The model name: the response's `openai-model` header when present, else the fallback
      the hook finds in the request. */
  function ResolveModel(headerModel: Option<string>, fallback: Option<string>): (r: Option<string>)
    ensures r.None? <==> headerModel.None? && fallback.None?
    ensures headerModel.Some? ==> r == headerModel
  {
    if headerModel.Some? then headerModel else fallback
  }

  /** The common body of both hooks: the key first, then the limit headers, then the model
      name, failing at the first step that fails. */
  function Observe(requestHeaders: Headers, responseHeaders: Headers, fallbackModel: Option<string>, now: int)
    : (r: Result<Observation, HookError>)
    ensures r.Success? <==>
      && AUTHORIZATION in requestHeaders
      && ExtractApiKey(requestHeaders[AUTHORIZATION]).Success?
      && ExtractLimitInfo(responseHeaders, now).Success?
      && (HeaderModel(responseHeaders).Some? || fallbackModel.Some?)
    ensures r.Success? ==>
      && r.value.apiKey == ExtractApiKey(requestHeaders[AUTHORIZATION]).value
      && r.value.info == ExtractLimitInfo(responseHeaders, now).value.1
      && r.value.model == (if OPENAI_MODEL in responseHeaders then responseHeaders[OPENAI_MODEL] else fallbackModel.value)
  {
    if AUTHORIZATION !in requestHeaders then Failure(MissingAuthorization)
    else match ExtractApiKey(requestHeaders[AUTHORIZATION])
      case Failure(e) => Failure(BadApiKey(e))
      case Success(apiKey) =>
        match ExtractLimitInfo(responseHeaders, now)
        case Failure(e) => Failure(BadHeaders(e))
        case Success((headerModel, info)) =>
          match ResolveModel(headerModel, fallbackModel)
          case None => Failure(NoModelName)
          case Some(model) => Success(Observation(model, apiKey, info))
  }

  /** The hook's steps composed: a key that reads, limit headers that read, and a model from
      the response or the fallback give the observation, the response's model winning. */
  lemma ObserveSteps(request: Headers, response: Headers, fallback: Option<string>, now: int,
                     key: string, model: Option<string>, info: Info, resolved: string)
    requires AUTHORIZATION in request && ExtractApiKey(request[AUTHORIZATION]) == Success(key)
    requires ExtractLimitInfo(response, now) == Success((model, info))
    requires ResolveModel(model, fallback) == Some(resolved)
    ensures Observe(request, response, fallback, now) == Success(Observation(resolved, key, info))
  {
  }

  /** End to end: a `Bearer` request and response headers that read as given yield the key,
      the snapshot, and the model settled by `ResolveModel`: the response's when it names
      one, else the fallback. `CarriedHeadersRead` supplies the reading for the headers
      OpenAI sends. */
  lemma ObserveOpenAIResponse(key: string, response: Headers, model: Option<string>, fallback: Option<string>, resolved: string,
                              rpmTotal: int, tpmTotal: int, rpmRemain: int, tpmRemain: int, rpmMs: int, tpmMs: int, now: int)
    requires ' ' !in key
    requires ReadsAs(response, model, rpmTotal, tpmTotal, rpmRemain, tpmRemain, rpmMs, tpmMs)
    requires ResolveModel(model, fallback) == Some(resolved)
    ensures Observe(map[AUTHORIZATION := BEARER + " " + key], response, fallback, now)
      == Success(Observation(resolved, key, Info(tpmTotal, tpmRemain, rpmTotal, rpmRemain, now + rpmMs, now + tpmMs)))
  {
    var request := map[AUTHORIZATION := BEARER + " " + key];
    assert ExtractApiKey(request[AUTHORIZATION]) == Success(key) by { ApiKeyRoundTrip(key); }
    ExtractFromValues(response, model, now, rpmTotal, tpmTotal, rpmRemain, tpmRemain, rpmMs, tpmMs);
    var info := Info(tpmTotal, tpmRemain, rpmTotal, rpmRemain, now + rpmMs, now + tpmMs);
    ObserveSteps(request, response, fallback, now, key, model, info, resolved);
  }

  /** Without a model in the response or the request the hook fails its assertion, even
      when everything else reads. */
  lemma ObserveWithoutModelFails(key: string, response: Headers,
                                 rpmTotal: int, tpmTotal: int, rpmRemain: int, tpmRemain: int, rpmMs: int, tpmMs: int, now: int)
    requires ' ' !in key
    requires ReadsAs(response, None, rpmTotal, tpmTotal, rpmRemain, tpmRemain, rpmMs, tpmMs)
    ensures Observe(map[AUTHORIZATION := BEARER + " " + key], response, None, now) == Failure(NoModelName)
  {
    ApiKeyRoundTrip(key);
    ExtractFromValues(response, None, now, rpmTotal, tpmTotal, rpmRemain, tpmRemain, rpmMs, tpmMs);
  }

  /** Records an observation, or leaves the ledger alone when the hook fails. */
  method Record(ledger: LimitInfoStore, observed: Result<Observation, HookError>) returns (r: Result<(), HookError>)
    modifies ledger
    ensures observed.Success? ==>
      r == Success(()) && ledger.store == Put(old(ledger.store), observed.value.model, observed.value.apiKey, observed.value.info)
    ensures observed.Failure? ==> r == Failure(observed.error) && ledger.store == old(ledger.store)
  {
    match observed
    case Failure(e) =>
      return Failure(e);
    case Success(o) =>
      ledger.SetLimitInfo(o.model, o.apiKey, o.info);
      return Success(());
  }

  /** `_response_hook`: the fallback model is the `model` field of the request body. */
  method ResponseHook(ledger: LimitInfoStore, requestHeaders: Headers, requestBodyModel: Option<string>,
                      responseHeaders: Headers, now: int) returns (r: Result<(), HookError>)
    modifies ledger
    ensures var observed := Observe(requestHeaders, responseHeaders, requestBodyModel, now);
      && (observed.Success? ==>
           r == Success(()) && ledger.store == Put(old(ledger.store), observed.value.model, observed.value.apiKey, observed.value.info))
      && (observed.Failure? ==> r == Failure(observed.error) && ledger.store == old(ledger.store))
  {
    r := Record(ledger, Observe(requestHeaders, responseHeaders, requestBodyModel, now));
  }

  /** The hook inside `_wrap_arequest_raw`: the fallback model is the request's `x-model`
      header. */
  method ArequestRawHook(ledger: LimitInfoStore, requestHeaders: Headers, responseHeaders: Headers, now: int)
    returns (r: Result<(), HookError>)
    modifies ledger
    ensures var fallback := if X_MODEL in requestHeaders then Some(requestHeaders[X_MODEL]) else None;
      var observed := Observe(requestHeaders, responseHeaders, fallback, now);
      && (observed.Success? ==>
           r == Success(()) && ledger.store == Put(old(ledger.store), observed.value.model, observed.value.apiKey, observed.value.info))
      && (observed.Failure? ==> r == Failure(observed.error) && ledger.store == old(ledger.store))
  {
    var fallback := if X_MODEL in requestHeaders then Some(requestHeaders[X_MODEL]) else None;
    r := Record(ledger, Observe(requestHeaders, responseHeaders, fallback, now));
  }
}
