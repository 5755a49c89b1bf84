/** The quota ledger: for every model and API key, the last rate-limit snapshot OpenAI
    reported, refilled lazily when a window has passed and charged before each call. */
module LimitInfo {
  import opened Wrappers

  /** `OrganizationLimitInfo`: token-per-minute and request-per-minute totals and remaining
      allowances, and the two moments (integer milliseconds) at which the windows reset. */
  datatype Info = Info(
    tpmTotal: int,
    tpmRemain: int,
    rpmTotal: int,
    rpmRemain: int,
    rpmResetTime: int,
    tpmResetTime: int
  )

  /** `_LIMIT_INFO_STORE`: model name to API key to snapshot. */
  type Store = map<string, map<string, Info>>

  /** `_LIMIT_INFO_STORE.get(model_name, {}).get(api_key)`. */
  function Get(s: Store, model: string, key: string): Option<Info> {
    if model in s && key in s[model] then Some(s[model][key]) else None
  }

  /** The store after `set_limit_info`: the snapshot sits under (model, key), the model's
      inner map created if it was missing, and every other pair reads as before. */
  function Put(s: Store, model: string, key: string, info: Info): (r: Store)
    ensures Get(r, model, key) == Some(info)
    ensures forall m, k :: (m != model || k != key) ==> Get(r, m, k) == Get(s, m, k)
    ensures r.Keys == s.Keys + {model}
  {
    s[model := (if model in s then s[model] else map[])[key := info]]
  }

  // ---------------------------------------------------------------------------------
  // Lazy refill

  /** The snapshot as `_get_limit_info` leaves it at time `now`: a dimension whose reset time
      lies strictly before `now` has its remaining allowance put back to its total. */
  function Refreshed(e: Info, now: int): (r: Info)
    ensures RefilledOnly(e, r)
    ensures e.rpmResetTime < now ==> r.rpmRemain == e.rpmTotal
    ensures e.tpmResetTime < now ==> r.tpmRemain == e.tpmTotal
    ensures now <= e.rpmResetTime && now <= e.tpmResetTime ==> r == e
  {
    var e1 := if e.rpmResetTime < now then e.(rpmRemain := e.rpmTotal) else e;
    if e1.tpmResetTime < now then e1.(tpmRemain := e1.tpmTotal) else e1
  }

  /** `_get_limit_info`: the refreshed snapshot, or `None` for a pair never seen, and the
      store with the refill written back; an absent pair changes nothing. */
  function Peek(s: Store, model: string, key: string, now: int): (r: (Option<Info>, Store))
    ensures r.0 == Seen(s, model, key, now)
    ensures r.0.None? ==> r.1 == s
    ensures r.0.Some? ==> Get(r.1, model, key) == r.0
    ensures forall m, k :: (m != model || k != key) ==> Get(r.1, m, k) == Get(s, m, k)
  {
    match Get(s, model, key)
    case None => (None, s)
    case Some(e) => (Some(Refreshed(e, now)), Put(s, model, key, Refreshed(e, now)))
  }

  /** The snapshot `_get_limit_info` returns. */
  function Seen(s: Store, model: string, key: string, now: int): Option<Info> {
    RefreshedOption(Get(s, model, key), now)
  }

  /** Same totals and same reset times: only the remaining allowances may differ. */
  predicate SameWindow(e: Info, f: Info) {
    e.rpmTotal == f.rpmTotal && e.tpmTotal == f.tpmTotal
    && e.rpmResetTime == f.rpmResetTime && e.tpmResetTime == f.tpmResetTime
  }

  /** `f` is `e` after zero or more refills and nothing else. */
  predicate RefilledOnly(e: Info, f: Info) {
    SameWindow(e, f)
    && (f.rpmRemain == e.rpmRemain || f.rpmRemain == e.rpmTotal)
    && (f.tpmRemain == e.tpmRemain || f.tpmRemain == e.tpmTotal)
  }

  /** Reading a pair refills each expired dimension on its own, leaves a dimension whose
      reset time equals `now` alone, never moves a reset time or a total, and writes what it
      returns back into the store. */
  lemma PeekRefills(s: Store, model: string, key: string, now: int, e: Info)
    requires Get(s, model, key) == Some(e)
    ensures Peek(s, model, key, now).0.Some?
    ensures var f := Peek(s, model, key, now).0.value;
      && SameWindow(e, f)
      && f.rpmRemain == (if e.rpmResetTime < now then e.rpmTotal else e.rpmRemain)
      && f.tpmRemain == (if e.tpmResetTime < now then e.tpmTotal else e.tpmRemain)
      && Get(Peek(s, model, key, now).1, model, key) == Some(f)
  {
  }

  /** Reading a pair that was never stored reports `None` and changes nothing. */
  lemma PeekAbsent(s: Store, model: string, key: string, now: int)
    requires Get(s, model, key) == None
    ensures Peek(s, model, key, now) == (None, s)
  {
  }

  /** A read touches no other pair. */
  lemma PeekFrame(s: Store, model: string, key: string, now: int, m: string, k: string)
    requires m != model || k != key
    ensures Get(Peek(s, model, key, now).1, m, k) == Get(s, m, k)
  {
  }

  /** Reset times are never advanced, so once a window has expired every later read puts
      its full total back, whatever was charged in between. */
  lemma ExpiredWindowRefillsForever(e: Info, f: Info, now: int, later: int)
    requires SameWindow(e, f)
    requires now <= later
    ensures e.rpmResetTime < now ==> Refreshed(f, later).rpmRemain == e.rpmTotal
    ensures e.tpmResetTime < now ==> Refreshed(f, later).tpmRemain == e.tpmTotal
    ensures SameWindow(e, Refreshed(f, later))
  {
  }

  /** Reading twice at the same moment is reading once. */
  lemma RefreshedIdempotent(e: Info, now: int)
    ensures Refreshed(Refreshed(e, now), now) == Refreshed(e, now)
    ensures RefilledOnly(e, Refreshed(e, now))
  {
  }

  // ---------------------------------------------------------------------------------
  // Admission

  /** The admission test: a request left, and strictly more tokens left than the call needs. */
  predicate Admits(e: Info, tokenCount: int) {
    e.rpmRemain > 0 && e.tpmRemain > tokenCount
  }

  /** One request and `tokenCount` tokens taken off the remaining allowances. */
  function Charge(e: Info, tokenCount: int): Info {
    e.(rpmRemain := e.rpmRemain - 1, tpmRemain := e.tpmRemain - tokenCount)
  }

  /** `_get_and_decrease_limit`: whether the call may run, and the store afterwards. */
  function Reserve(s: Store, model: string, key: string, tokenCount: int, now: int): (r: (bool, Store))
    ensures r.0 <==> Get(s, model, key).None? || Admits(Refreshed(Get(s, model, key).value, now), tokenCount)
    ensures forall m, k :: (m != model || k != key) ==> Get(r.1, m, k) == Get(s, m, k)
  {
    var (seen, s1) := Peek(s, model, key, now);
    match seen
    case None => (true, s1)
    case Some(f) => if Admits(f, tokenCount) then (true, Put(s1, model, key, Charge(f, tokenCount))) else (false, s1)
  }

  /** A pair never seen is admitted and the store is left as it was. */
  lemma ReserveAbsent(s: Store, model: string, key: string, tokenCount: int, now: int)
    requires Get(s, model, key) == None
    ensures Reserve(s, model, key, tokenCount, now) == (true, s)
  {
  }

  /** A known pair is admitted exactly when, after the refill, a request is left and strictly
      more tokens than `tokenCount`; admission takes exactly one request and `tokenCount`
      tokens, refusal takes nothing, and no other pair changes. */
  lemma ReservePresent(s: Store, model: string, key: string, tokenCount: int, now: int, e: Info)
    requires Get(s, model, key) == Some(e)
    ensures var f := Refreshed(e, now);
      var (run, s') := Reserve(s, model, key, tokenCount, now);
      && (run <==> f.rpmRemain > 0 && f.tpmRemain > tokenCount)
      && (run ==> Get(s', model, key) == Some(f.(rpmRemain := f.rpmRemain - 1, tpmRemain := f.tpmRemain - tokenCount)))
      && (!run ==> Get(s', model, key) == Some(f))
      && forall m, k :: (m != model || k != key) ==> Get(s', m, k) == Get(s, m, k)
  {
  }

  /** A snapshot whose allowances lie between zero and their totals. */
  predicate Sane(e: Info) {
    0 <= e.rpmRemain <= e.rpmTotal && 0 <= e.tpmRemain <= e.tpmTotal
  }

  ghost predicate AllSane(s: Store) {
    forall m, k :: Get(s, m, k).Some? ==> Sane(Get(s, m, k).value)
  }

  /** With a non-negative token count, an admitted call leaves at least zero requests and at
      least one token: the counters never go negative. */
  lemma ReserveKeepsCountersNonNegative(s: Store, model: string, key: string, tokenCount: int, now: int, e: Info)
    requires Get(s, model, key) == Some(e) && Sane(e) && tokenCount >= 0
    requires Reserve(s, model, key, tokenCount, now).0
    ensures Get(Reserve(s, model, key, tokenCount, now).1, model, key).Some?
    ensures var f := Get(Reserve(s, model, key, tokenCount, now).1, model, key).value;
      f.rpmRemain >= 0 && f.tpmRemain >= 1 && Sane(f)
  {
    ReservePresent(s, model, key, tokenCount, now, e);
  }

  /** Every reservation with a non-negative token count keeps every snapshot sane. */
  lemma ReservePreservesSane(s: Store, model: string, key: string, tokenCount: int, now: int)
    requires AllSane(s) && tokenCount >= 0
    ensures AllSane(Reserve(s, model, key, tokenCount, now).1)
  {
    var s' := Reserve(s, model, key, tokenCount, now).1;
    forall m, k | Get(s', m, k).Some?
      ensures Sane(Get(s', m, k).value)
    {
      match Get(s, model, key)
      case None =>
      case Some(e) =>
        ReservePresent(s, model, key, tokenCount, now, e);
        assert Sane(e);
    }
  }

  /** With one request left and the window still open, a second reservation is refused:
      two calls in a row cannot both spend the last request. */
  lemma LastRequestAdmitsOnce(s: Store, model: string, key: string, tokenCount: int, now: int, e: Info)
    requires Get(s, model, key) == Some(e)
    requires e.rpmRemain == 1 && now <= e.rpmResetTime
    ensures var s1 := Reserve(s, model, key, tokenCount, now).1;
      !Reserve(s1, model, key, tokenCount, now).0
  {
    ReservePresent(s, model, key, tokenCount, now, e);
    var (run, s1) := Reserve(s, model, key, tokenCount, now);
    var e1 := Get(s1, model, key).value;
    ReservePresent(s1, model, key, tokenCount, now, e1);
  }

  /** A reservation on a snapshot whose windows are still open and which admits the call
      charges it in place. */
  lemma ReserveAdmitsOpen(s: Store, model: string, key: string, tokenCount: int, now: int, e: Info)
    requires Get(s, model, key) == Some(e)
    requires now <= e.rpmResetTime && now <= e.tpmResetTime && Admits(e, tokenCount)
    ensures Reserve(s, model, key, tokenCount, now) == (true, Put(s, model, key, Charge(e, tokenCount)))
  {
    assert Refreshed(e, now) == e;
    assert s[model][key := e] == s[model];
    assert Put(s, model, key, e) == s;
  }

  /** A reservation on a snapshot whose windows are still open and which does not admit the
      call leaves the store exactly as it was. */
  lemma ReserveRefusesOpen(s: Store, model: string, key: string, tokenCount: int, now: int, e: Info)
    requires Get(s, model, key) == Some(e)
    requires now <= e.rpmResetTime && now <= e.tpmResetTime && !Admits(e, tokenCount)
    ensures Reserve(s, model, key, tokenCount, now) == (false, s)
  {
    assert Refreshed(e, now) == e;
    assert s[model][key := e] == s[model];
    assert Put(s, model, key, e) == s;
  }

  /** A snapshot of 3 requests and 1000 tokens admits three calls of 100 tokens, leaving
      700 tokens and no request, and then refuses a call of 2000 tokens without changing
      anything. */
  lemma ThreeCallsThenRefusal(s: Store, model: string, key: string, now: int, resetAt: int)
    requires now <= resetAt
    ensures var s0 := Put(s, model, key, Info(1000, 1000, 3, 3, resetAt, resetAt));
      var (r1, s1) := Reserve(s0, model, key, 100, now);
      var (r2, s2) := Reserve(s1, model, key, 100, now);
      var (r3, s3) := Reserve(s2, model, key, 100, now);
      var (r4, s4) := Reserve(s3, model, key, 2000, now);
      && r1 && r2 && r3 && !r4
      && Get(s3, model, key) == Some(Info(1000, 700, 3, 0, resetAt, resetAt))
      && s4 == s3
  {
    var e0 := Info(1000, 1000, 3, 3, resetAt, resetAt);
    var s0 := Put(s, model, key, e0);
    ReserveAdmitsOpen(s0, model, key, 100, now, e0);
    var e1 := Charge(e0, 100);
    var s1 := Put(s0, model, key, e1);
    ReserveAdmitsOpen(s1, model, key, 100, now, e1);
    var e2 := Charge(e1, 100);
    var s2 := Put(s1, model, key, e2);
    ReserveAdmitsOpen(s2, model, key, 100, now, e2);
    var e3 := Charge(e2, 100);
    var s3 := Put(s2, model, key, e3);
    assert e3 == Info(1000, 700, 3, 0, resetAt, resetAt);
    ReserveRefusesOpen(s3, model, key, 2000, now, e3);
  }

  // ---------------------------------------------------------------------------------
  // The wait loop

  function Abs(x: int): nat {
    if x < 0 then -x else x
  }

  /** `int(limit_await_timeout / limit_await_sleep)`: the quotient truncated toward zero, so
      its magnitude is the number of whole sleeps in the timeout and it is negative only when
      the two have opposite signs. */
  function MaxAwaitCount(timeout: int, sleep: int): (r: int)
    requires sleep != 0
    ensures Abs(r) * Abs(sleep) <= Abs(timeout) < (Abs(r) + 1) * Abs(sleep)
    ensures r < 0 ==> (timeout < 0) != (sleep < 0)
    ensures r > 0 ==> (timeout < 0) == (sleep < 0)
  {
    var q := Abs(timeout) / Abs(sleep);
    DivBounds(Abs(timeout), Abs(sleep), q);
    var r := if (timeout < 0) != (sleep < 0) then -q else q;
    assert Abs(r) == q;
    r
  }

  lemma DivBounds(a: nat, b: nat, q: nat)
    requires b > 0 && q == a / b
    ensures q * b <= a < (q + 1) * b
  {
  }

  /** How many times `range(max_await_count)` runs the loop body: no more whole sleeps than
      fit in the timeout, all of them when the signs agree, and none when they differ. */
  function Attempts(timeout: int, sleep: int): (r: nat)
    requires sleep != 0
    ensures r * Abs(sleep) <= Abs(timeout)
    ensures (timeout < 0) == (sleep < 0) ==> Abs(timeout) < (r + 1) * Abs(sleep)
    ensures (timeout < 0) != (sleep < 0) ==> r == 0
  {
    var n := MaxAwaitCount(timeout, sleep);
    if n < 0 then 0 else n
  }

  /** How many of those attempts run: `time.sleep` raises `ValueError` on a negative length,
      so with a negative sleep the first refused attempt is also the last. */
  function AttemptsMade(timeout: int, sleep: int): (r: nat)
    requires sleep != 0
    ensures sleep > 0 ==> r == Attempts(timeout, sleep)
    ensures sleep < 0 ==> r == (if Attempts(timeout, sleep) > 0 then 1 else 0)
  {
    var n := Attempts(timeout, sleep);
    if sleep < 0 && n > 0 then 1 else n
  }

  /** The attempt count is the number of whole sleeps that fit in the timeout, and none when
      the two have opposite signs. */
  lemma AttemptsBound(timeout: int, sleep: int)
    requires sleep > 0
    ensures timeout >= 0 ==> Attempts(timeout, sleep) * sleep <= timeout < (Attempts(timeout, sleep) + 1) * sleep
    ensures timeout < 0 ==> Attempts(timeout, sleep) == 0
  {
  }

  /** The attempts from the `i`-th on: the first admission ends the loop, and running out of
      attempts ends it unadmitted. Attempt `i` happens at time `clock(i)`. */
  function WaitFrom(s: Store, model: string, key: string, tokenCount: int, clock: nat -> int, i: nat, n: nat): (r: (bool, Store))
    requires i <= n
    ensures i == n ==> r == (false, s)
    ensures Get(s, model, key).None? ==> r == (i < n, s)
    ensures forall m, k :: (m != model || k != key) ==> Get(r.1, m, k) == Get(s, m, k)
    decreases n - i
  {
    if i == n then (false, s)
    else
      var (run, s1) := Reserve(s, model, key, tokenCount, clock(i));
      if run then (true, s1) else WaitFrom(s1, model, key, tokenCount, clock, i + 1, n)
  }

  /** `f` is `e` after refills and exactly one admitted charge of `tokenCount` tokens. */
  predicate ChargedOnce(e: Info, f: Info, tokenCount: int) {
    SameWindow(e, f)
    && (f.rpmRemain + 1 == e.rpmRemain || f.rpmRemain + 1 == e.rpmTotal)
    && (f.tpmRemain + tokenCount == e.tpmRemain || f.tpmRemain + tokenCount == e.tpmTotal)
    && f.rpmRemain >= 0 && f.tpmRemain > 0
  }

  lemma RefilledOnlyTrans(e: Info, f: Info, g: Info)
    requires RefilledOnly(e, f) && RefilledOnly(f, g)
    ensures RefilledOnly(e, g)
  {
  }

  lemma ChargedAfterRefill(e: Info, f: Info, g: Info, tokenCount: int)
    requires RefilledOnly(e, f) && ChargedOnce(f, g, tokenCount)
    ensures ChargedOnce(e, g, tokenCount)
  {
  }

  /** What one failed or successful attempt does to a known pair. */
  lemma ReserveEffect(s: Store, model: string, key: string, tokenCount: int, now: int, e: Info)
    requires Get(s, model, key) == Some(e)
    ensures var (run, s') := Reserve(s, model, key, tokenCount, now);
      && Get(s', model, key).Some?
      && (run ==> ChargedOnce(e, Get(s', model, key).value, tokenCount))
      && (!run ==> RefilledOnly(e, Get(s', model, key).value))
  {
    ReservePresent(s, model, key, tokenCount, now, e);
  }

  /** The wait loop from attempt `i` on: for a pair never seen it is admitted at once, if it
      has an attempt left, and changes nothing; for a known pair an admission charges the
      snapshot exactly once, and a time-out leaves it refilled at most. No other pair
      changes. */
  lemma {:induction false} WaitFromEffect(s: Store, model: string, key: string, tokenCount: int, clock: nat -> int, i: nat, n: nat)
    requires i <= n
    ensures var (ok, s') := WaitFrom(s, model, key, tokenCount, clock, i, n);
      && (Get(s, model, key) == None ==> ok == (i < n) && s' == s)
      && (i == n ==> !ok && s' == s)
      && (forall m, k :: (m != model || k != key) ==> Get(s', m, k) == Get(s, m, k))
      && (Get(s, model, key).Some? ==> Get(s', model, key).Some?)
      && (Get(s, model, key).Some? && ok ==> ChargedOnce(Get(s, model, key).value, Get(s', model, key).value, tokenCount))
      && (Get(s, model, key).Some? && !ok ==> RefilledOnly(Get(s, model, key).value, Get(s', model, key).value))
    decreases n - i
  {
    if i < n {
      match Get(s, model, key)
      case None =>
        ReserveAbsent(s, model, key, tokenCount, clock(i));
      case Some(e) =>
        ReserveEffect(s, model, key, tokenCount, clock(i), e);
        ReservePresent(s, model, key, tokenCount, clock(i), e);
        var (run, s1) := Reserve(s, model, key, tokenCount, clock(i));
        if !run {
          WaitFromEffect(s1, model, key, tokenCount, clock, i + 1, n);
          var f := Get(s1, model, key).value;
          var g := Get(WaitFrom(s1, model, key, tokenCount, clock, i + 1, n).1, model, key).value;
          if WaitFrom(s1, model, key, tokenCount, clock, i + 1, n).0 {
            ChargedAfterRefill(e, f, g, tokenCount);
          } else {
            RefilledOnlyTrans(e, f, g);
          }
        }
    }
  }

  /** The whole wait loop: zero attempts raise at once and touch nothing; otherwise at most
      one reservation is ever made. */
  lemma WaitLoopOutcome(s: Store, model: string, key: string, tokenCount: int, clock: nat -> int, n: nat)
    ensures var (ok, s') := WaitFrom(s, model, key, tokenCount, clock, 0, n);
      && (n == 0 ==> !ok && s' == s)
      && (Get(s, model, key) == None ==> ok == (n > 0) && s' == s)
      && (forall m, k :: (m != model || k != key) ==> Get(s', m, k) == Get(s, m, k))
      && (Get(s, model, key).Some? ==> Get(s', model, key).Some?)
      && (Get(s, model, key).Some? && ok ==> ChargedOnce(Get(s, model, key).value, Get(s', model, key).value, tokenCount))
      && (Get(s, model, key).Some? && !ok ==> RefilledOnly(Get(s, model, key).value, Get(s', model, key).value))
  {
    WaitFromEffect(s, model, key, tokenCount, clock, 0, n);
  }

  // ---------------------------------------------------------------------------------
  // Key selection

  /** A key is clearly possible when it was never seen or its refreshed snapshot admits. */
  predicate Usable(seen: Option<Info>, tokenCount: int) {
    seen.None? || Admits(seen.value, tokenCount)
  }

  /** `clearly_possible_keys`, in the order of `api_keys`. */
  function ClearlyPossible(s: Store, model: string, keys: seq<string>, tokenCount: int, now: int): (r: seq<string>)
    ensures forall k :: k in r <==> k in keys && Usable(Seen(s, model, k, now), tokenCount)
    decreases |keys|
  {
    if keys == [] then []
    else
      var last := keys[|keys| - 1];
      ClearlyPossible(s, model, keys[..|keys| - 1], tokenCount, now)
        + (if Usable(Seen(s, model, last, now), tokenCount) then [last] else [])
  }

  /** The store after reading every key of `keys` in turn. */
  function RefreshAll(s: Store, model: string, keys: seq<string>, now: int): Store
    decreases |keys|
  {
    if keys == [] then s
    else Peek(RefreshAll(s, model, keys[..|keys| - 1], now), model, keys[|keys| - 1], now).1
  }

  function RefreshedOption(o: Option<Info>, now: int): Option<Info> {
    match o
    case None => None
    case Some(e) => Some(Refreshed(e, now))
  }

  /** Reading a pair at the same moment again sees the same snapshot. */
  lemma SeenAfterPeek(s: Store, model: string, key: string, k: string, now: int)
    ensures Seen(Peek(s, model, key, now).1, model, k, now) == Seen(s, model, k, now)
  {
    if Get(s, model, key).Some? {
      RefreshedIdempotent(Get(s, model, key).value, now);
    }
  }

  /** Reading all keys applies the refill to each of them and to nothing else: choosing a
      key never charges a counter. */
  lemma {:induction false} RefreshAllEffect(s: Store, model: string, keys: seq<string>, now: int)
    ensures forall m, k ::
      Get(RefreshAll(s, model, keys, now), m, k)
      == if m == model && k in keys then RefreshedOption(Get(s, m, k), now) else Get(s, m, k)
    ensures forall k :: Seen(RefreshAll(s, model, keys, now), model, k, now) == Seen(s, model, k, now)
    decreases |keys|
  {
    if keys != [] {
      var init, last := keys[..|keys| - 1], keys[|keys| - 1];
      RefreshAllEffect(s, model, init, now);
      var s1 := RefreshAll(s, model, init, now);
      forall k ensures Seen(RefreshAll(s, model, keys, now), model, k, now) == Seen(s, model, k, now) {
        SeenAfterPeek(s1, model, last, k, now);
      }
      forall m, k ensures Get(RefreshAll(s, model, keys, now), m, k)
        == if m == model && k in keys then RefreshedOption(Get(s, m, k), now) else Get(s, m, k)
      {
        assert k in keys <==> k in init || k == last;
        if m == model && k == last {
          if Get(s, m, k).Some? {
            RefreshedIdempotent(Get(s, m, k).value, now);
          }
        } else {
          PeekFrame(s1, model, last, now, m, k);
        }
      }
    }
  }

  /** Reading all keys never charges a counter: every snapshot is its old self, refilled at
      most. */
  lemma ChooseOnlyRefills(s: Store, model: string, keys: seq<string>, now: int, m: string, k: string)
    requires Get(s, m, k).Some?
    ensures Get(RefreshAll(s, model, keys, now), m, k).Some?
    ensures RefilledOnly(Get(s, m, k).value, Get(RefreshAll(s, model, keys, now), m, k).value)
  {
    RefreshAllEffect(s, model, keys, now);
    RefreshedIdempotent(Get(s, m, k).value, now);
  }

  /** The fallback as written: `random.choice(api_key)` on the loop variable left over from
      the last iteration, the last key, gives one of its characters. */
  predicate FallbackAsWritten(keys: seq<string>, r: Result<string, ChooseError>)
    requires keys != []
  {
    var last := keys[|keys| - 1];
    if last == "" then r == Failure(EmptyChoice)
    else r.Success? && |r.value| == 1 && r.value[0] in last
  }

  /** `AssertionError` for an empty key list; `IndexError` from `random.choice` on an empty
      string. */
  datatype ChooseError = NoApiKeys | EmptyChoice

  /** Real API keys are longer than one character, so the fallback as written never returns
      one of the keys it was given. */
  lemma FallbackIsNotAKey(keys: seq<string>, r: Result<string, ChooseError>)
    requires keys != [] && FallbackAsWritten(keys, r)
    requires forall i :: 0 <= i < |keys| ==> |keys[i]| > 1
    ensures r.Success? ==> r.value !in keys
  {
  }

  /** When every key is exhausted inside its window, nothing is clearly possible and the
      fallback decides. */
  lemma ExhaustedKeysFallBack(s: Store, model: string, keys: seq<string>, tokenCount: int, now: int)
    requires forall i :: 0 <= i < |keys| ==>
      && Get(s, model, keys[i]).Some?
      && Get(s, model, keys[i]).value.rpmRemain == 0
      && now <= Get(s, model, keys[i]).value.rpmResetTime
    ensures ClearlyPossible(s, model, keys, tokenCount, now) == []
  {
  }

  // ---------------------------------------------------------------------------------
  // The ledger object

  class LimitInfoStore {
    var store: Store

    /** The module starts with an empty store. */
    constructor ()
      ensures store == map[]
    {
      store := map[];
    }

    /** `set_limit_info`. */
    method SetLimitInfo(model: string, key: string, info: Info)
      modifies this
      ensures store == Put(old(store), model, key, info)
    {
      if model !in store {
        store := store[model := map[]];
      }
      store := store[model := store[model][key := info]];
    }

    /** `_get_limit_info` and `get_limit_info`: look the pair up, refill expired
        dimensions on the stored snapshot, and return it. */
    method GetLimitInfo(model: string, key: string, now: int) returns (result: Option<Info>)
      modifies this
      ensures (result, store) == Peek(old(store), model, key, now)
    {
      result := if model in store && key in store[model] then Some(store[model][key]) else None;
      if result.Some? {
        var info := result.value;
        if info.rpmResetTime < now {
          info := info.(rpmRemain := info.rpmTotal);
        }
        if info.tpmResetTime < now {
          info := info.(tpmRemain := info.tpmTotal);
        }
        store := store[model := store[model][key := info]];
        result := Some(info);
      }
    }

    /** `_get_and_decrease_limit`: the atomic check-and-charge. */
    method GetAndDecreaseLimit(model: string, key: string, tokenCount: int, now: int) returns (run: bool)
      modifies this
      ensures (run, store) == Reserve(old(store), model, key, tokenCount, now)
    {
      var limitInfo := GetLimitInfo(model, key, now);
      run := false;
      if limitInfo.None? || (limitInfo.value.rpmRemain > 0 && limitInfo.value.tpmRemain > tokenCount) {
        if limitInfo.Some? {
          var info := limitInfo.value;
          info := info.(rpmRemain := info.rpmRemain - 1);
          info := info.(tpmRemain := info.tpmRemain - tokenCount);
          store := store[model := store[model][key := info]];
        }
        run := true;
      }
    }

    /** `wait_for_limit`: up to `int(timeout / sleep)` attempts, attempt `i` at time
        `clock(i)`; returns on the first admission, sleeps after each refusal and raises
        `TimeoutError` when all fail. A negative sleep makes `time.sleep` raise `ValueError`
        after the first refusal. */
    method WaitForLimit(model: string, key: string, tokenCount: int, timeout: int, sleep: int, clock: nat -> int)
      returns (outcome: WaitOutcome)
      modifies this
      ensures sleep == 0 ==> outcome == ZeroDivisionError && store == old(store)
      ensures sleep != 0 ==>
        var (ok, s') := WaitFrom(old(store), model, key, tokenCount, clock, 0, AttemptsMade(timeout, sleep));
        && outcome == (if ok then Proceed else if sleep < 0 && Attempts(timeout, sleep) > 0 then SleepValueError else TimeoutError)
        && store == s'
    {
      if sleep == 0 {
        return ZeroDivisionError;
      }
      var maxAwaitCount := Attempts(timeout, sleep);
      ghost var made := AttemptsMade(timeout, sleep);
      for i := 0 to maxAwaitCount
        invariant i <= made
        invariant sleep < 0 ==> i == 0
        invariant WaitFrom(old(store), model, key, tokenCount, clock, 0, made)
          == WaitFrom(store, model, key, tokenCount, clock, i, made)
      {
        var run := GetAndDecreaseLimit(model, key, tokenCount, clock(i));
        if run {
          return Proceed;
        }
        if sleep < 0 {
          return SleepValueError;
        }
      }
      return TimeoutError;
    }

    /** `choose_key` as written: refresh every key, collect the clearly possible ones and
        pick one of them; with none, pick a character of the last key. */
    method ChooseKey(model: string, apiKeys: seq<string>, tokenCount: int, now: int)
      returns (r: Result<string, ChooseError>)
      modifies this
      ensures apiKeys == [] ==> r == Failure(NoApiKeys) && store == old(store)
      ensures apiKeys != [] ==> store == RefreshAll(old(store), model, apiKeys, now)
      ensures var possible := ClearlyPossible(old(store), model, apiKeys, tokenCount, now);
        && (possible != [] ==> r.Success? && r.value in possible)
        && (apiKeys != [] && possible == [] ==> FallbackAsWritten(apiKeys, r))
    {
      if |apiKeys| == 0 {
        return Failure(NoApiKeys);
      }
      var limitInfos := CollectLimitInfos(model, apiKeys, now);
      var clearlyPossibleKeys, apiKey := FilterClearlyPossible(old(store), model, apiKeys, limitInfos, tokenCount, now);
      if |clearlyPossibleKeys| > 0 {
        assert clearlyPossibleKeys[0] in clearlyPossibleKeys;
        var k :| k in clearlyPossibleKeys;
        return Success(k);
      }
      if |apiKey| == 0 {
        return Failure(EmptyChoice);
      }
      var c :| 0 <= c < |apiKey|;
      assert apiKey[c..c + 1][0] == apiKey[c];
      return Success(apiKey[c..c + 1]);
    }

    /** `choose_key` as evidently intended: the fallback picks one of the keys. */
    method ChooseKeyIntended(model: string, apiKeys: seq<string>, tokenCount: int, now: int)
      returns (r: Result<string, ChooseError>)
      modifies this
      ensures apiKeys == [] ==> r == Failure(NoApiKeys) && store == old(store)
      ensures apiKeys != [] ==> store == RefreshAll(old(store), model, apiKeys, now)
      ensures var possible := ClearlyPossible(old(store), model, apiKeys, tokenCount, now);
        && (possible != [] ==> r.Success? && r.value in possible)
        && (apiKeys != [] && possible == [] ==> r.Success? && r.value in apiKeys)
    {
      if |apiKeys| == 0 {
        return Failure(NoApiKeys);
      }
      var limitInfos := CollectLimitInfos(model, apiKeys, now);
      var clearlyPossibleKeys, _ := FilterClearlyPossible(old(store), model, apiKeys, limitInfos, tokenCount, now);
      if |clearlyPossibleKeys| > 0 {
        assert clearlyPossibleKeys[0] in clearlyPossibleKeys;
        var k :| k in clearlyPossibleKeys;
        return Success(k);
      }
      assert apiKeys[0] in apiKeys;
      var k :| k in apiKeys;
      return Success(k);
    }

    /** The comprehension `[_get_limit_info(model_name, api_key) for api_key in api_keys]`. */
    method CollectLimitInfos(model: string, apiKeys: seq<string>, now: int) returns (limitInfos: seq<Option<Info>>)
      modifies this
      ensures store == RefreshAll(old(store), model, apiKeys, now)
      ensures |limitInfos| == |apiKeys|
      ensures forall j :: 0 <= j < |apiKeys| ==> limitInfos[j] == Seen(old(store), model, apiKeys[j], now)
    {
      limitInfos := [];
      for i := 0 to |apiKeys|
        invariant |limitInfos| == i
        invariant store == RefreshAll(old(store), model, apiKeys[..i], now)
        invariant forall j :: 0 <= j < i ==> limitInfos[j] == Seen(old(store), model, apiKeys[j], now)
      {
        assert apiKeys[..i + 1][..i] == apiKeys[..i];
        RefreshAllEffect(old(store), model, apiKeys[..i], now);
        var info := GetLimitInfo(model, apiKeys[i], now);
        limitInfos := limitInfos + [info];
      }
      assert apiKeys[..|apiKeys|] == apiKeys;
    }

    /** `reset_limit_info`: forget every snapshot. */
    method ResetLimitInfo()
      modifies this
      ensures store == map[]
    {
      store := map[];
    }
  }

  /** The loop over `zip(api_keys, limit_infos)`; also returns the loop variable `api_key`
      as the loop leaves it. `s` is the store the snapshots were read from. */
  method FilterClearlyPossible(ghost s: Store, model: string, apiKeys: seq<string>, limitInfos: seq<Option<Info>>, tokenCount: int, now: int)
    returns (clearlyPossibleKeys: seq<string>, apiKey: string)
    requires |apiKeys| == |limitInfos| > 0
    requires forall j :: 0 <= j < |apiKeys| ==> limitInfos[j] == Seen(s, model, apiKeys[j], now)
    ensures clearlyPossibleKeys == ClearlyPossible(s, model, apiKeys, tokenCount, now)
    ensures apiKey == apiKeys[|apiKeys| - 1]
  {
    clearlyPossibleKeys := [];
    apiKey := "";
    for i := 0 to |apiKeys|
      invariant clearlyPossibleKeys == ClearlyPossible(s, model, apiKeys[..i], tokenCount, now)
      invariant i > 0 ==> apiKey == apiKeys[i - 1]
    {
      assert apiKeys[..i + 1][..i] == apiKeys[..i];
      apiKey := apiKeys[i];
      var limit := limitInfos[i];
      if limit.None? {
        clearlyPossibleKeys := clearlyPossibleKeys + [apiKey];
      } else if limit.value.rpmRemain > 0 && limit.value.tpmRemain > tokenCount {
        clearlyPossibleKeys := clearlyPossibleKeys + [apiKey];
      }
    }
    assert apiKeys[..|apiKeys|] == apiKeys;
  }

  /** How `wait_for_limit` ends: it returns, raises `TimeoutError`, divides by a zero
      sleep, or hands `time.sleep` a negative length. */
  datatype WaitOutcome = Proceed | TimeoutError | ZeroDivisionError | SleepValueError

  /** After `reset_limit_info` every pair is unknown again: a read reports `None` and a
      reservation is admitted, both without changing the empty store. */
  lemma ResetForgetsEverything(model: string, key: string, tokenCount: int, now: int)
    ensures Get(map[], model, key) == None
    ensures Peek(map[], model, key, now) == (None, map[])
    ensures Reserve(map[], model, key, tokenCount, now) == (true, map[])
  {
  }
}
