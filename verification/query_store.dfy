/** The query store of `queryStore.js`: a cache of fetched data keyed by a
    string derived from the query key, a per-key query state, bounded
    retries with a growing delay, and invalidation.

    The clock is a parameter: `now` is the time at which a call starts, and
    the only time that passes inside a call is the wait between retries
    (a fetch itself takes no time in the model). The fetcher is a function
    from the attempt number to the outcome of that attempt. */
module QueryStore {
  import opened Optional
  import opened JsString

  /* ------------------------------------------------------------------ */
  /* JavaScript values and JSON.stringify                                */

  /** The JavaScript values a query key is built from: JSON-like data with
      integer numbers. An object lists its own properties in order. */
  datatype JsValue =
    | JNull
    | JBool(b: bool)
    | JNum(n: int)
    | JStr(s: string)
    | JArr(items: seq<JsValue>)
    | JObj(fields: seq<Field>)

  datatype Field = Field(name: string, value: JsValue)

  function HexDigit(d: nat): (c: char)
    requires d < 16
    ensures ('0' <= c <= '9') || ('a' <= c <= 'f')
  {
    if d < 10 then ('0' as int + d) as char else ('a' as int + d - 10) as char
  }

  /** How `JSON.stringify` writes one character inside a string literal:
      quote and backslash are escaped, control characters get their short
      escape or a `\u00xx` escape, everything else stands for itself. */
  function EscapeChar(c: char): (r: string)
    ensures |r| >= 1
    ensures c as int >= 32 && c != '"' && c != '\\' <==> r == [c]
    ensures r != [c] ==> r[0] == '\\'
  {
    if c == '"' then ['\\', '"']
    else if c == '\\' then ['\\', '\\']
    else if c as int == 8 then ['\\', 'b']
    else if c == '\t' then ['\\', 't']
    else if c == '\n' then ['\\', 'n']
    else if c as int == 12 then ['\\', 'f']
    else if c == '\r' then ['\\', 'r']
    else if c as int < 32 then ['\\', 'u', '0', '0', HexDigit(c as int / 16), HexDigit(c as int % 16)]
    else [c]
  }

  function Escape(s: string): (r: string)
    ensures |r| >= |s|
  {
    if s == [] then [] else EscapeChar(s[0]) + Escape(s[1..])
  }

  /** A JSON string literal. */
  function Quote(s: string): string {
    "\"" + Escape(s) + "\""
  }

  function BoolText(b: bool): string {
    if b then "true" else "false"
  }

  /** `JSON.stringify(v)`: objects keep their property order. */
  function Stringify(v: JsValue): string
    decreases v
  {
    match v
    case JNull => "null"
    case JBool(b) => BoolText(b)
    case JNum(n) => IntString(n)
    case JStr(s) => Quote(s)
    case JArr(items) =>
      "[" + Join(seq(|items|, i requires 0 <= i < |items| => Stringify(items[i])), ",") + "]"
    case JObj(fields) =>
      "{" + Join(seq(|fields|, i requires 0 <= i < |fields| =>
        Quote(fields[i].name) + ":" + Stringify(fields[i].value)), ",") + "}"
  }

  /** How an array element enters the key: objects, arrays and null (whose
      `typeof` is "object") through `JSON.stringify`, everything else
      through `String`. */
  function ItemText(v: JsValue): string {
    match v
    case JBool(b) => BoolText(b)
    case JNum(n) => IntString(n)
    case JStr(s) => s
    case _ => Stringify(v)
  }

  function ItemTexts(items: seq<JsValue>): (r: seq<string>)
    ensures |r| == |items| && forall i :: 0 <= i < |items| ==> r[i] == ItemText(items[i])
  {
    seq(|items|, i requires 0 <= i < |items| => ItemText(items[i]))
  }

  /* ------------------------------------------------------------------ */
  /* Sorting an object's properties by name                              */

  /** Property names in strictly increasing order under JavaScript's string
      comparison, the order `Array.prototype.sort` gives them. */
  predicate SortedNames(fs: seq<Field>) {
    forall i, j :: 0 <= i < j < |fs| ==> StrLt(fs[i].name, fs[j].name)
  }

  /** No property name repeats, as in every JavaScript object. */
  predicate UniqueNames(fs: seq<Field>) {
    forall i, j :: 0 <= i < j < |fs| ==> fs[i].name != fs[j].name
  }

  /** Inserts a property before the first property whose name is not
      smaller. */
  function Insert(f: Field, fs: seq<Field>): (r: seq<Field>)
    ensures multiset(r) == multiset(fs) + multiset{f}
  {
    if fs == [] || StrLt(f.name, fs[0].name) then [f] + fs
    else
      assert fs == [fs[0]] + fs[1..];
      [fs[0]] + Insert(f, fs[1..])
  }

  /** Inserting a property with a new name into a sorted list keeps it
      sorted. */
  lemma {:induction false} InsertSorted(f: Field, fs: seq<Field>)
    requires SortedNames(fs)
    requires forall i :: 0 <= i < |fs| ==> fs[i].name != f.name
    ensures SortedNames(Insert(f, fs))
    decreases |fs|
  {
    var r := Insert(f, fs);
    if fs == [] {
    } else if StrLt(f.name, fs[0].name) {
      forall j | 1 <= j < |r| ensures StrLt(f.name, r[j].name) {
        if j > 1 { StrLtTransitive(f.name, fs[0].name, fs[j - 1].name); }
      }
    } else {
      var tail := Insert(f, fs[1..]);
      InsertSorted(f, fs[1..]);
      StrLtTrichotomy(f.name, fs[0].name);
      assert fs == [fs[0]] + fs[1..];
      forall j | 0 <= j < |tail| ensures StrLt(fs[0].name, tail[j].name) {
        assert tail[j] in multiset(fs[1..]) + multiset{f};
        if tail[j] != f {
          var k :| 0 <= k < |fs[1..]| && fs[1..][k] == tail[j];
          assert fs[k + 1] == tail[j];
        }
      }
      assert r == [fs[0]] + tail;
    }
  }

  /** The property list sorted by name (an insertion sort). */
  function SortFields(fs: seq<Field>): (r: seq<Field>)
    ensures multiset(r) == multiset(fs)
  {
    if fs == [] then []
    else
      assert fs == [fs[0]] + fs[1..];
      Insert(fs[0], SortFields(fs[1..]))
  }

  /** Sorting a property list with unique names orders it strictly. */
  lemma {:induction false} SortFieldsSorted(fs: seq<Field>)
    requires UniqueNames(fs)
    ensures SortedNames(SortFields(fs))
    decreases |fs|
  {
    if fs != [] {
      var tail := SortFields(fs[1..]);
      assert fs == [fs[0]] + fs[1..];
      SortFieldsSorted(fs[1..]);
      forall i | 0 <= i < |tail| ensures tail[i].name != fs[0].name {
        assert tail[i] in multiset(fs[1..]);
        var k :| 0 <= k < |fs[1..]| && fs[1..][k] == tail[i];
        assert fs[k + 1] == tail[i];
      }
      InsertSorted(fs[0], tail);
    }
  }

  /** Two lists sorted strictly by name that hold the same properties are
      the same list: whatever order the properties came in, sorting puts
      them in one order. */
  lemma {:induction false} SortedUnique(a: seq<Field>, b: seq<Field>)
    requires SortedNames(a) && SortedNames(b) && multiset(a) == multiset(b)
    ensures a == b
    decreases |a|
  {
    if a == [] || b == [] {
      assert |multiset(a)| == |a| && |multiset(b)| == |b|;
    } else {
      SameHead(a, b);
      TailMultiset(a, b);
      SortedTail(a);
      SortedTail(b);
      SortedUnique(a[1..], b[1..]);
      assert a == [a[0]] + a[1..] && b == [b[0]] + b[1..];
    }
  }

  lemma TailMultiset<T>(a: seq<T>, b: seq<T>)
    requires |a| > 0 && |b| > 0 && a[0] == b[0] && multiset(a) == multiset(b)
    ensures multiset(a[1..]) == multiset(b[1..])
  {
    assert a == [a[0]] + a[1..] && b == [b[0]] + b[1..];
    var x, a1, b1 := a[0], a[1..], b[1..];
    assert multiset(a) == multiset{x} + multiset(a1);
    assert multiset(b) == multiset{x} + multiset(b1);
    forall y ensures multiset(a1)[y] == multiset(b1)[y] {
      assert multiset(a)[y] == multiset{x}[y] + multiset(a1)[y];
      assert multiset(b)[y] == multiset{x}[y] + multiset(b1)[y];
    }
  }

  /** Two non-empty sorted lists with the same properties start alike: each
      starts with the property of least name. */
  lemma SameHead(a: seq<Field>, b: seq<Field>)
    requires SortedNames(a) && SortedNames(b) && multiset(a) == multiset(b) && |a| > 0 && |b| > 0
    ensures a[0] == b[0]
  {
    var x, y := a[0], b[0];
    if x != y {
      assert x in multiset(b) && y in multiset(a);
      var j :| 0 <= j < |b| && b[j] == x;
      var i :| 0 <= i < |a| && a[i] == y;
      assert StrLt(x.name, a[i].name);
      assert StrLt(y.name, b[j].name);
      StrLtTrichotomy(x.name, y.name);
    }
  }

  lemma SortedTail(a: seq<Field>)
    requires SortedNames(a) && |a| > 0
    ensures SortedNames(a[1..])
  {
    forall i, j | 0 <= i < j < |a| - 1 ensures StrLt(a[1..][i].name, a[1..][j].name) {
      assert a[1..][i] == a[i + 1] && a[1..][j] == a[j + 1];
    }
  }

  /* ------------------------------------------------------------------ */
  /* Cache keys                                                          */

  /** `createCacheKey(key)`. A string is its own key; an array joins its
      elements' texts with '|'; an object joins "name:JSON" for its
      properties in name order; a number or boolean is its `String`. `null`
      is an object to `typeof`, and `Object.keys(null)` throws: None. */
  function CreateCacheKey(key: JsValue): (r: Option<string>)
    ensures r.None? <==> key.JNull?
    ensures key.JStr? ==> r == Some(key.s)
  {
    match key
    case JNull => None
    case JStr(s) => Some(s)
    case JArr(items) => Some(Join(ItemTexts(items), "|"))
    case JObj(fields) =>
      var sorted := SortFields(fields);
      Some(Join(seq(|sorted|, i requires 0 <= i < |sorted| =>
        sorted[i].name + ":" + Stringify(sorted[i].value)), "|"))
    case _ => Some(ItemText(key))
  }

  /** The order in which an object's properties were created does not
      change its key. */
  lemma ObjectKeyOrderFree(fs: seq<Field>, gs: seq<Field>)
    requires UniqueNames(fs) && UniqueNames(gs) && multiset(fs) == multiset(gs)
    ensures CreateCacheKey(JObj(fs)) == CreateCacheKey(JObj(gs))
  {
    SortFieldsSorted(fs);
    SortFieldsSorted(gs);
    SortedUnique(SortFields(fs), SortFields(gs));
  }

  /** An array key can be read back: when no element's text contains '|',
      splitting the key on '|' gives the element texts. */
  lemma ArrayKeyReadsBack(items: seq<JsValue>)
    requires |items| >= 1
    requires forall i :: 0 <= i < |items| ==> '|' !in ItemText(items[i])
    ensures Split(CreateCacheKey(JArr(items)).value, "|") == ItemTexts(items)
  {
    JoinSplit(ItemTexts(items), '|');
  }

  /** Keys collide across shapes: a number and its decimal string share a
      key, and so do an array whose element contains '|' and the array of
      its pieces. */
  lemma KeyCollisions()
    ensures CreateCacheKey(JNum(1)) == CreateCacheKey(JStr("1"))
    ensures CreateCacheKey(JArr([JStr("a|b")])) == CreateCacheKey(JArr([JStr("a"), JStr("b")]))
  {
    assert ItemTexts([JStr("a"), JStr("b")]) == ["a", "b"];
    assert ["a", "b"][1..] == ["b"];
    assert Join(["a", "b"], "|") == "a|b";
    assert ItemTexts([JStr("a|b")]) == ["a|b"];
  }

  /* ------------------------------------------------------------------ */
  /* Validity and errors                                                 */

  /** `isCacheValid(timestamp, cacheTime)` at time `now`. */
  predicate IsCacheValid(now: int, timestamp: int, cacheTime: int) {
    now - timestamp < cacheTime
  }

  datatype ErrorData = ErrorData(message: Option<string>)
  datatype Response = Response(status: int, data: Option<ErrorData>)

  /** A thrown error: its `response`, whether it has a truthy `request`,
      and its `message`. */
  datatype RawError = RawError(response: Option<Response>, request: bool, message: string)

  /** The classified error `classifyError` produces. */
  datatype QueryError =
    | ResponseError(status: int, message: string, data: Option<ErrorData>)
    | NetworkError(message: string, original: RawError)
    | RequestError(message: string, original: RawError)

  function OrElse(s: Option<string>, fallback: string): (r: string)
    ensures s.Some? && s.value != "" ==> r == s.value
    ensures s.None? || s.value == "" ==> r == fallback
  {
    if s.Some? && s.value != "" then s.value else fallback
  }

  /** `classifyError(error)`: a response makes a response error, else a
      request a network error, else a request error; the message falls back
      to a fixed text when the given one is missing or empty. */
  function ClassifyError(e: RawError): (r: QueryError)
    ensures r.ResponseError? <==> e.response.Some?
    ensures r.NetworkError? <==> e.response.None? && e.request
    ensures r.RequestError? <==> e.response.None? && !e.request
    ensures r.message != ""
    ensures r.ResponseError? ==> r.status == e.response.value.status && r.data == e.response.value.data
    ensures r.RequestError? && e.message != "" ==> r.message == e.message
  {
    match e.response
    case Some(resp) =>
      var m := if resp.data.Some? then resp.data.value.message else None;
      ResponseError(resp.status, OrElse(m, "HTTP " + IntString(resp.status) + " 에러"), resp.data)
    case None =>
      if e.request then NetworkError("네트워크 연결 오류", e)
      else RequestError(OrElse(Some(e.message), "요청 설정 오류"), e)
  }

  /* ------------------------------------------------------------------ */
  /* The store                                                           */

  /** A query's state. `timestamp` is None only in the default state
      `getQueryState` hands out for unknown keys. */
  datatype QueryState = QueryState(
    data: JsValue,
    isLoading: bool,
    isFetching: bool,
    error: Option<QueryError>,
    timestamp: Option<int>,
    isStale: bool)

  datatype CacheEntry = CacheEntry(data: JsValue, timestamp: int)

  /** The `queries` state and the module-level cache `Map`. */
  datatype Store = Store(queries: map<string, QueryState>, cache: map<string, CacheEntry>)

  /** The options `executeQuery` reads. */
  datatype Options = Options(cacheTime: int, enabled: bool, retry: int, retryDelay: nat)

  /** The defaults: five minutes, enabled, three retries, one second. */
  function DefaultOptions(): Options {
    Options(5 * 60 * 1000, true, 3, 1000)
  }

  datatype Outcome = Success(data: JsValue) | Failure(error: RawError)

  /** How `executeQuery` ends: `null` for a disabled query, the data, a
      rejection with the classified error, a `TypeError` from a null key,
      or `undefined` when a negative retry count skips the loop. */
  datatype QueryResult = Disabled | Returned(data: JsValue) | Rejected(error: QueryError) | KeyError | NoResult

  predicate Truthy(v: JsValue) {
    match v
    case JNull => false
    case JBool(b) => b
    case JNum(n) => n != 0
    case JStr(s) => s != ""
    case _ => true
  }

  /** `cached?.data || null`. */
  function PreviousData(cached: Option<CacheEntry>): (r: JsValue)
    ensures cached.Some? && Truthy(cached.value.data) ==> r == cached.value.data
    ensures cached.None? || !Truthy(cached.value.data) ==> r == JNull
  {
    if cached.Some? && Truthy(cached.value.data) then cached.value.data else JNull
  }

  /** The first successful attempt among 0..last, if any. */
  function FirstSuccess(fetch: nat -> Outcome, from: nat, last: int): (r: Option<nat>)
    decreases last - from
    ensures r.Some? ==> from <= r.value <= last && fetch(r.value).Success?
    ensures r.Some? ==> forall k :: from <= k < r.value ==> fetch(k).Failure?
    ensures r.None? ==> forall k :: from <= k <= last ==> fetch(k).Failure?
  {
    if from > last then None
    else if fetch(from).Success? then Some(from)
    else FirstSuccess(fetch, from + 1, last)
  }

  /** The waits before the retries that follow the first `n` failures:
      `retryDelay * (k + 1)` after failure `k`. */
  function Waits(retryDelay: nat, n: nat): (r: seq<nat>)
    ensures |r| == n
    ensures forall k :: 0 <= k < n ==> r[k] == retryDelay * (k + 1)
  {
    seq(n, k => retryDelay * (k + 1))
  }

  function Sum(ws: seq<nat>): nat
    decreases |ws|
  {
    if ws == [] then 0 else Sum(ws[..|ws| - 1]) + ws[|ws| - 1]
  }

  /** The total wait before attempt `n` is `retryDelay * n * (n + 1) / 2`. */
  lemma {:induction false} WaitsTotal(retryDelay: nat, n: nat)
    ensures 2 * Sum(Waits(retryDelay, n)) == retryDelay * n * (n + 1)
  {
    if n > 0 {
      WaitsTotal(retryDelay, n - 1);
      assert Waits(retryDelay, n)[..n - 1] == Waits(retryDelay, n - 1);
      assert retryDelay * n * (n + 1) == retryDelay * (n - 1) * n + 2 * (retryDelay * n);
    }
  }

  /** The state shown while fetching. */
  function LoadingState(cached: Option<CacheEntry>, now: int): (q: QueryState)
    ensures q.isLoading && q.isFetching && q.error.None? && q.timestamp == Some(now)
  {
    QueryState(PreviousData(cached), true, true, None, Some(now), false)
  }

  /** The retry loop of `executeQuery`: attempts 0, 1, ..., `retry` in
      order until one succeeds, waiting `retryDelay * (k + 1)` after a
      failed attempt `k` that is not the last. Returns the successful
      attempt, if any, the number of fetcher calls and the waits. */
  method Attempts(fetch: nat -> Outcome, retry: int, retryDelay: nat)
    returns (success: Option<nat>, calls: nat, waits: seq<nat>)
    ensures success == FirstSuccess(fetch, 0, retry)
    ensures retry < 0 ==> calls == 0 && waits == []
    ensures success.Some? ==> calls == success.value + 1 && waits == Waits(retryDelay, success.value)
    ensures success.None? && retry >= 0 ==> calls == retry + 1 && waits == Waits(retryDelay, retry)
  {
    calls, waits := 0, [];
    var attempt: nat := 0;
    while attempt as int <= retry
      invariant retry < 0 ==> attempt == 0
      invariant retry >= 0 ==> attempt as int <= retry
      invariant calls == attempt
      invariant forall j :: 0 <= j < attempt ==> fetch(j).Failure?
      invariant waits == Waits(retryDelay, attempt)
      decreases retry - attempt
    {
      var outcome := fetch(attempt);
      calls := calls + 1;
      if outcome.Success? {
        FirstSuccessAt(fetch, attempt, retry);
        return Some(attempt), calls, waits;
      }
      if attempt as int < retry {
        var w := retryDelay * (attempt + 1);
        assert Waits(retryDelay, attempt + 1) == waits + [w];
        waits := waits + [w];
        attempt := attempt + 1;
      } else {
        return None, calls, waits;
      }
    }
    return None, calls, waits;
  }

  /** The cached entry for `k`, if any. */
  function Cached(st: Store, k: string): (r: Option<CacheEntry>)
    ensures r.Some? <==> k in st.cache
    ensures r.Some? ==> r.value == st.cache[k]
  {
    if k in st.cache then Some(st.cache[k]) else None
  }

  /** A query on `k` changed the query state and the cache entry of `k`
      only, and left `k` with a query state. */
  predicate OnlyKeyChanged(st: Store, st': Store, k: string) {
    k in st'.queries && st'.queries.Keys == st.queries.Keys + {k}
    && (forall c :: c in st.queries && c != k ==> st'.queries[c] == st.queries[c])
    && (forall c :: c in st.cache && c != k ==> c in st'.cache && st'.cache[c] == st.cache[c])
  }

  /** How a query that found no valid cache entry ends. A negative retry
      count skips the loop and leaves the key loading. Otherwise the first
      successful attempt, made after the waits for the failures before it,
      is stored in the cache and in the state with the time it arrived and
      is returned; when every attempt fails, the last failure is classified
      and thrown, the cache is untouched and the state keeps the previously
      cached data. */
  predicate Fetched(st: Store, k: string, fetch: nat -> Outcome, opts: Options, now: int,
                    res: QueryResult, st': Store, calls: nat, waits: seq<nat>)
    requires k in st'.queries
  {
    var cached := Cached(st, k);
    var first := FirstSuccess(fetch, 0, opts.retry);
    var t := now + Sum(waits);
    (opts.retry < 0 ==>
      res == NoResult && calls == 0 && st'.cache == st.cache && st'.queries[k] == LoadingState(cached, now))
    && (first.Some? ==>
      res == Returned(fetch(first.value).data) && calls == first.value + 1
      && waits == Waits(opts.retryDelay, first.value)
      && st'.cache == st.cache[k := CacheEntry(fetch(first.value).data, t)]
      && st'.queries[k] == QueryState(fetch(first.value).data, false, false, None, Some(t), false))
    && (first.None? && opts.retry >= 0 ==>
      res == Rejected(ClassifyError(fetch(opts.retry).error)) && calls == opts.retry + 1
      && waits == Waits(opts.retryDelay, opts.retry)
      && st'.cache == st.cache
      && st'.queries[k] == QueryState(PreviousData(cached), false, false, Some(res.error),
           Some(if cached.Some? && cached.value.timestamp != 0 then cached.value.timestamp else t), false))
  }

  /** The fetching part of `executeQuery`, once the key is known and no
      valid cache entry exists. */
  method FetchQuery(st: Store, k: string, fetch: nat -> Outcome, opts: Options, now: int)
    returns (res: QueryResult, st': Store, calls: nat, waits: seq<nat>)
    ensures OnlyKeyChanged(st, st', k)
    ensures Fetched(st, k, fetch, opts, now, res, st', calls, waits)
  {
    var cached := Cached(st, k);
    var success;
    success, calls, waits := Attempts(fetch, opts.retry, opts.retryDelay);
    var t := now + Sum(waits);
    if opts.retry < 0 {
      st' := st.(queries := st.queries[k := LoadingState(cached, now)]);
      res := NoResult;
    } else if success.Some? {
      var data := fetch(success.value).data;
      st' := Store(
        st.queries[k := QueryState(data, false, false, None, Some(t), false)],
        st.cache[k := CacheEntry(data, t)]);
      res := Returned(data);
    } else {
      var err := ClassifyError(fetch(opts.retry).error);
      var ts := if cached.Some? && cached.value.timestamp != 0 then cached.value.timestamp else t;
      st' := st.(queries := st.queries[k := QueryState(PreviousData(cached), false, false, Some(err), Some(ts), false)]);
      res := Rejected(err);
    }
  }

  /** `executeQuery(key, fetcher, options)`. Returns how the call ended, the
      new store, how often the fetcher was called and the waits between
      attempts. A disabled query and a null key change nothing and call
      nothing; a valid cache entry is returned without a call. */
  method ExecuteQuery(st: Store, key: JsValue, fetch: nat -> Outcome, opts: Options, now: int)
    returns (res: QueryResult, st': Store, calls: nat, waits: seq<nat>)
    ensures !opts.enabled ==> res == Disabled && st' == st && calls == 0
    ensures opts.enabled && key.JNull? ==> res == KeyError && st' == st && calls == 0
    ensures opts.enabled && !key.JNull? ==> (
      var k := CreateCacheKey(key).value;
      var cached := Cached(st, k);
      OnlyKeyChanged(st, st', k)
      && (cached.Some? && IsCacheValid(now, cached.value.timestamp, opts.cacheTime) ==>
            res == Returned(cached.value.data) && calls == 0 && st'.cache == st.cache
            && st'.queries[k] == QueryState(cached.value.data, false, false, None, Some(cached.value.timestamp), false))
      && (!(cached.Some? && IsCacheValid(now, cached.value.timestamp, opts.cacheTime)) ==>
            Fetched(st, k, fetch, opts, now, res, st', calls, waits)))
  {
    calls, waits := 0, [];
    if !opts.enabled {
      return Disabled, st, calls, waits;
    }
    var key' := CreateCacheKey(key);
    if key'.None? {
      return KeyError, st, calls, waits;
    }
    var k := key'.value;
    var cached := Cached(st, k);
    if cached.Some? && IsCacheValid(now, cached.value.timestamp, opts.cacheTime) {
      var c := cached.value;
      st' := st.(queries := st.queries[k := QueryState(c.data, false, false, None, Some(c.timestamp), false)]);
      return Returned(c.data), st', calls, waits;
    }
    res, st', calls, waits := FetchQuery(st, k, fetch, opts, now);
  }

  /** When every attempt before `at` failed and `at` succeeds, `at` is the
      first success. */
  lemma FirstSuccessAt(fetch: nat -> Outcome, at: nat, last: int)
    requires at as int <= last && fetch(at).Success?
    requires forall j :: 0 <= j < at ==> fetch(j).Failure?
    ensures FirstSuccess(fetch, 0, last) == Some(at)
  {
  }

  /* ------------------------------------------------------------------ */
  /* Reading, invalidating, updating                                     */

  /** `getQueryState(key)`: the stored state, or the idle default. */
  function GetQueryState(st: Store, key: JsValue): (r: Option<QueryState>)
    ensures r.None? <==> key.JNull?
    ensures r.Some? && CreateCacheKey(key).value in st.queries ==> r.value == st.queries[CreateCacheKey(key).value]
    ensures r.Some? && CreateCacheKey(key).value !in st.queries ==>
      r.value == QueryState(JNull, false, false, None, None, false)
  {
    match CreateCacheKey(key)
    case None => None
    case Some(k) =>
      Some(if k in st.queries then st.queries[k] else QueryState(JNull, false, false, None, None, false))
  }

  /** Whether `invalidateQueries(keys)` reaches a key whose cache key is
      `c`: it walks the list in order and stops at the first null key. */
  predicate Listed(keys: seq<JsValue>, c: string)
    decreases |keys|
  {
    |keys| > 0 && !keys[0].JNull? && (CreateCacheKey(keys[0]) == Some(c) || Listed(keys[1..], c))
  }

  /** `invalidateQueries(keys)`: drops each listed key from the cache and
      from the query states. The flag reports the `TypeError` a null key
      throws, which ends the walk. */
  function InvalidateQueries(st: Store, keys: seq<JsValue>): (r: (Store, bool))
    decreases |keys|
    ensures r.1 <==> exists i :: 0 <= i < |keys| && keys[i].JNull?
  {
    if keys == [] then (st, false)
    else match CreateCacheKey(keys[0])
      case None => (st, true)
      case Some(k) =>
        var r := InvalidateQueries(Store(st.queries - {k}, st.cache - {k}), keys[1..]);
        assert forall i :: 0 <= i < |keys[1..]| ==> keys[1..][i] == keys[i + 1];
        r
  }

  /** `invalidateQueries` drops from both maps exactly the keys it reaches
      and leaves every other entry as it was. */
  lemma {:induction false} InvalidateDropsListed(st: Store, keys: seq<JsValue>, c: string)
    decreases |keys|
    ensures var r := InvalidateQueries(st, keys).0;
      (c in r.queries <==> c in st.queries && !Listed(keys, c))
      && (c in r.cache <==> c in st.cache && !Listed(keys, c))
      && (c in r.queries ==> r.queries[c] == st.queries[c])
      && (c in r.cache ==> r.cache[c] == st.cache[c])
  {
    if keys != [] && !keys[0].JNull? {
      var k := CreateCacheKey(keys[0]).value;
      InvalidateDropsListed(Store(st.queries - {k}, st.cache - {k}), keys[1..], c);
    }
  }

  /** With no null key, exactly the listed keys are dropped. */
  lemma {:induction false} ListedExactly(keys: seq<JsValue>, c: string)
    requires forall i :: 0 <= i < |keys| ==> !keys[i].JNull?
    ensures Listed(keys, c) <==> exists i :: 0 <= i < |keys| && CreateCacheKey(keys[i]) == Some(c)
    decreases |keys|
  {
    if keys != [] {
      ListedExactly(keys[1..], c);
      if Listed(keys[1..], c) {
        var i :| 0 <= i < |keys[1..]| && CreateCacheKey(keys[1..][i]) == Some(c);
        assert CreateCacheKey(keys[i + 1]) == Some(c);
      }
      if i :| 0 <= i < |keys| && CreateCacheKey(keys[i]) == Some(c) {
        if i > 0 { assert keys[1..][i - 1] == keys[i]; }
      }
    }
  }

  /** After `invalidateQuery(key)` the key reads as the idle default and a
      query on it fetches again. */
  lemma InvalidateThenRead(st: Store, key: JsValue)
    requires !key.JNull?
    ensures var r := InvalidateQueries(st, [key]);
      var k := CreateCacheKey(key).value;
      !r.1 && k !in r.0.cache
      && GetQueryState(r.0, key) == Some(QueryState(JNull, false, false, None, None, false))
  {
    InvalidateDropsListed(st, [key], CreateCacheKey(key).value);
  }

  /** `clearCache()`: empties both maps. */
  function ClearCache(st: Store): (r: Store)
    ensures r.queries == map[] && r.cache == map[]
  {
    Store(map[], map[])
  }

  /** `updateQueryData(key, updater)`: when the key has a state, replaces
      its data by `updater(data)` in the state and writes the same data to
      the cache under the state's timestamp; otherwise changes nothing. A
      null key throws: None. */
  function UpdateQueryData(st: Store, key: JsValue, updater: JsValue -> JsValue): (r: Option<Store>)
    ensures r.None? <==> key.JNull?
    ensures r.Some? ==> (
      var k := CreateCacheKey(key).value;
      (k !in st.queries ==> r.value == st)
      && (k in st.queries ==>
        var q := st.queries[k];
        r.value.queries == st.queries[k := q.(data := updater(q.data))]
        && k in r.value.cache && r.value.cache[k].data == updater(q.data)
        && (q.timestamp.Some? ==> r.value.cache[k].timestamp == q.timestamp.value)
        && forall c :: c != k ==> ((c in r.value.cache <==> c in st.cache)
                && (c in st.cache ==> r.value.cache[c] == st.cache[c]))))
  {
    match CreateCacheKey(key)
    case None => None
    case Some(k) =>
      if k !in st.queries then Some(st)
      else
        var q := st.queries[k];
        var d := updater(q.data);
        var ts := if q.timestamp.Some? then q.timestamp.value else 0;
        Some(Store(st.queries[k := q.(data := d)], st.cache[k := CacheEntry(d, ts)]))
  }

  /** Updating keeps the timestamp, so an update never makes stale data
      fresh again: the cache entry is valid afterwards exactly when the
      state's timestamp is. */
  lemma UpdateKeepsValidity(st: Store, key: JsValue, updater: JsValue -> JsValue, now: int, cacheTime: int)
    requires !key.JNull?
    requires var k := CreateCacheKey(key).value; k in st.queries && st.queries[k].timestamp.Some?
    ensures var k := CreateCacheKey(key).value;
      var r := UpdateQueryData(st, key, updater).value;
      IsCacheValid(now, r.cache[k].timestamp, cacheTime) <==> IsCacheValid(now, st.queries[k].timestamp.value, cacheTime)
  {
  }
}
