/**
  The query-keyed result cache of `DataManager`.

  The network is a parameter: `GetReposData` is handed the outcome the
  request would have had, and reports whether it consulted it at all.
  The `await` points are taken as atomic, so a call is one transition.
 */
module DataManager {
  import opened JsText

  /** The `owner` object of one search result; only `login` is read. */
  datatype Account = Account(login: string)

  /** One element of the `items` array of the search response, restricted
      to the fields the normalisation reads. */
  datatype RawRepo = RawRepo(id: int, name: string, owner: Account, stargazersCount: int)

  /** The normalised record stored in the cache and shown to the user. */
  datatype Repo = Repo(id: int, name: string, owner: string, stars: int)

  /** What `response.json()` yields: an object whose `items` may be missing,
      or a body that fails to parse (the promise rejects). */
  datatype Body = Json(items: Option<seq<RawRepo>>) | Unparsable

  /** The outcome of `fetch`: a response with its status, or a rejection. */
  datatype FetchOutcome = Response(status: int, body: Body) | NetworkError

  /** `response.ok`: the status is in the range 200-299. */
  predicate IsOk(status: int) {
    200 <= status <= 299
  }

  /** The private state: `#cache` and `#currentQuery`. */
  datatype Manager = Manager(cache: map<string, seq<Repo>>, currentQuery: string)

  /** A freshly constructed manager. */
  const Initial: Manager := Manager(map[], "")

  /** The value the returned promise resolves to, the state afterwards, and
      whether a request was sent. */
  datatype Reply = Reply(manager: Manager, data: seq<Repo>, requested: bool)

  /** The raw record a normalised record was extracted from. */
  function ToRaw(r: Repo): RawRepo {
    RawRepo(r.id, r.name, Account(r.owner), r.stars)
  }

  /** `#extractData`: renames `owner.login` to `owner` and `stargazers_count`
      to `stars`, losing nothing it reads. */
  function ExtractData(raw: RawRepo): (r: Repo)
    ensures ToRaw(r) == raw
  {
    Repo(raw.id, raw.name, raw.owner.login, raw.stargazersCount)
  }

  /** `items.map(#extractData)`: one record per item, in the same order. */
  function ExtractAll(items: seq<RawRepo>): (rs: seq<Repo>)
    ensures |rs| == |items|
    ensures forall i :: 0 <= i < |items| ==> ToRaw(rs[i]) == items[i]
  {
    if items == [] then [] else [ExtractData(items[0])] + ExtractAll(items[1..])
  }

  /** The key set grows and every stored entry keeps its value. */
  predicate CacheExtends(before: map<string, seq<Repo>>, after: map<string, seq<Repo>>) {
    && before.Keys <= after.Keys
    && forall k :: k in before ==> after[k] == before[k]
  }

  /** `getReposData(query)` with the network answering `outcome`. */
  function GetReposData(m: Manager, query: string, outcome: FetchOutcome): (r: Reply)
    // Only the empty string is refused; whitespace is not trimmed here.
    ensures query == "" ==> r == Reply(m, [], false)
    // Every other call records the query, whatever the fetch does later.
    ensures query != "" ==> r.manager.currentQuery == query
    // A request is sent exactly on a miss.
    ensures r.requested <==> query != "" && query !in m.cache
    // A hit answers the stored sequence and leaves the cache alone.
    ensures query != "" && query in m.cache ==> r.data == m.cache[query] && r.manager.cache == m.cache
    // A successful miss stores the extracted items under exactly that key.
    ensures r.requested && outcome.Response? && IsOk(outcome.status) && outcome.body.Json? ==>
              && r.manager.cache.Keys == m.cache.Keys + {query}
              && r.manager.cache[query] == r.data
              && |r.data| == (if outcome.body.items.Some? then |outcome.body.items.value| else 0)
              && forall i :: 0 <= i < |r.data| ==> ToRaw(r.data[i]) == outcome.body.items.value[i]
    // Any failure answers [] and stores nothing.
    ensures r.requested && !(outcome.Response? && IsOk(outcome.status) && outcome.body.Json?) ==>
              r.data == [] && r.manager.cache == m.cache
    // Existing entries are never overwritten and nothing but the query is added.
    ensures CacheExtends(m.cache, r.manager.cache)
    ensures r.manager.cache.Keys <= m.cache.Keys + {query}
  {
    if query == "" then Reply(m, [], false)
    else
      var m1 := m.(currentQuery := query);
      if query in m.cache then Reply(m1, m.cache[query], false)
      else
        match outcome
        case NetworkError => Reply(m1, [], true)
        case Response(status, body) =>
          if !IsOk(status) then Reply(m1, [], true)
          else
            match body
            case Unparsable => Reply(m1, [], true)
            case Json(items) =>
              var data := if items.Some? then ExtractAll(items.value) else [];
              Reply(m1.(cache := m.cache[query := data]), data, true)
  }

  /** What `getRepoData` evaluates to: the record, `undefined` when no record
      has that name, or a thrown TypeError when `#currentQuery` has nothing
      cached (`.find` called on `undefined`). */
  datatype Lookup = Found(repo: Repo) | NotFound | Thrown

  /** The position of the first record named `name`, or `|rs|` if none. */
  function FirstNamed(rs: seq<Repo>, name: string): (i: nat)
    ensures i <= |rs|
    ensures i < |rs| ==> rs[i].name == name
    ensures forall j :: 0 <= j < i ==> rs[j].name != name
  {
    if rs == [] then 0
    else if rs[0].name == name then 0
    else 1 + FirstNamed(rs[1..], name)
  }

  /** `getRepoData(name)`: `Array.prototype.find` on the list cached for the
      current query. */
  function GetRepoData(m: Manager, name: string): (r: Lookup)
    ensures r.Thrown? <==> m.currentQuery !in m.cache
    ensures r.Found? ==> r.repo in m.cache[m.currentQuery] && r.repo.name == name
    ensures r.Found? ==> exists i :: 0 <= i < |m.cache[m.currentQuery]| && m.cache[m.currentQuery][i] == r.repo
                                    && forall j :: 0 <= j < i ==> m.cache[m.currentQuery][j].name != name
    ensures r.NotFound? ==> forall x :: x in m.cache[m.currentQuery] ==> x.name != name
  {
    if m.currentQuery !in m.cache then Thrown
    else
      var rs := m.cache[m.currentQuery];
      var i := FirstNamed(rs, name);
      if i < |rs| then Found(rs[i]) else NotFound
  }

  /** Repeating a query that is cached (after a hit or a successful miss)
      answers the same sequence, sends no request and changes no entry. */
  lemma RepeatedQueryHits(m: Manager, query: string, first: FetchOutcome, second: FetchOutcome)
    requires query != ""
    requires query in GetReposData(m, query, first).manager.cache
    ensures var r1 := GetReposData(m, query, first);
            var r2 := GetReposData(r1.manager, query, second);
            && !r2.requested
            && r2.data == r1.data
            && r2.manager == r1.manager
  {
  }

  /** A failed request leaves no entry behind, so the same query is sent to
      the network again next time. */
  lemma FailureIsRetried(m: Manager, query: string, outcome: FetchOutcome, next: FetchOutcome)
    requires query != "" && query !in m.cache
    requires !(outcome.Response? && IsOk(outcome.status) && outcome.body.Json?)
    ensures GetReposData(GetReposData(m, query, outcome).manager, query, next).requested
  {
  }

  /** A session: each step is one call with the outcome its request would get. */
  datatype Call = Call(query: string, outcome: FetchOutcome)

  function RunCalls(m: Manager, calls: seq<Call>): Manager
    decreases |calls|
  {
    if calls == [] then m
    else RunCalls(GetReposData(m, calls[0].query, calls[0].outcome).manager, calls[1..])
  }

  /** Over any session the cache only grows, and no entry, once written, ever
      changes. */
  lemma {:induction false} SessionCacheExtends(m: Manager, calls: seq<Call>)
    ensures CacheExtends(m.cache, RunCalls(m, calls).cache)
    decreases |calls|
  {
    if calls != [] {
      var m1 := GetReposData(m, calls[0].query, calls[0].outcome).manager;
      SessionCacheExtends(m1, calls[1..]);
    }
  }

  /** The cache never holds the empty query, so before any non-empty call the
      lookup by name throws. */
  lemma {:induction false} EmptyQueryNeverCached(calls: seq<Call>)
    ensures "" !in RunCalls(Initial, calls).cache
    ensures RunCalls(Initial, calls).currentQuery == "" ==>
              forall name :: GetRepoData(RunCalls(Initial, calls), name).Thrown?
  {
    NoEmptyKeyKept(Initial, calls);
  }

  lemma {:induction false} NoEmptyKeyKept(m: Manager, calls: seq<Call>)
    requires "" !in m.cache
    ensures "" !in RunCalls(m, calls).cache
    decreases |calls|
  {
    if calls != [] {
      NoEmptyKeyKept(GetReposData(m, calls[0].query, calls[0].outcome).manager, calls[1..]);
    }
  }
}
