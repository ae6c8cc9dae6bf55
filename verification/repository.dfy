/**
 The `TokenRepository` interface and the refresh-on-demand token source
 (`tokenRefresher`) built on it. A call to `Token` is a pure step: it takes the
 repository's current state and gives back the result, the state it leaves and
 the calls it made to the repository and the provider, in order.
 */
module Repository {
  import opened Tokens

  /**
   The `TokenRepository` interface over an abstract store state `S`. A write
   gives back the state it leaves and its error, if any; a read leaves the
   state alone.
   */
  datatype TokenRepository<!S> = TokenRepository(
    saveToken: (S, Uuid, TokenRef) -> (S, Option<Error>),
    updateToken: (S, Uuid, TokenRef) -> (S, Option<Error>),
    getToken: (S, Uuid) -> Result<TokenRef>)

  /** The provider's `RefreshToken`: a network exchange, seen only through its answer. */
  datatype Provider = Provider(refreshToken: TokenRef -> Result<OAuthToken>)

  /** One call made by the token source to a collaborator. */
  datatype Call =
    | GetCall(id: Uuid)
    | SaveCall(id: Uuid, token: TokenRef)
    | UpdateCall(id: Uuid, token: TokenRef)
    | RefreshCall(token: TokenRef)
  {
    predicate IsWrite() { SaveCall? || UpdateCall? }
  }

  /** The outcome of one `Token` call. */
  datatype Step<S> = Step(result: Result<OAuthToken>, state: S, calls: seq<Call>)

  /** `tokenRefresher`: a repository, the identifier fixed at construction, and a provider. */
  datatype TokenRefresher<!S> = TokenRefresher(repo: TokenRepository<S>, id: Uuid, provider: Provider)

  /** The kinds of call a trace is counted by. */
  datatype Kind = Get | AnyWrite | Save | Refresh

  predicate IsKind(c: Call, k: Kind)
  {
    match k
    case Get => c.GetCall?
    case AnyWrite => c.IsWrite()
    case Save => c.SaveCall?
    case Refresh => c.RefreshCall?
  }

  /** The number of calls of kind `k` in `calls`. */
  function Count(calls: seq<Call>, k: Kind): nat
  {
    if calls == [] then 0 else (if IsKind(calls[0], k) then 1 else 0) + Count(calls[1..], k)
  }

  function Writes(calls: seq<Call>): nat { Count(calls, AnyWrite) }
  function Saves(calls: seq<Call>): nat { Count(calls, Save) }
  function Refreshes(calls: seq<Call>): nat { Count(calls, Refresh) }

  /** The state a repository reaches from `s` by performing `c`: only writes move it. */
  function Apply<S>(repo: TokenRepository<S>, s: S, c: Call): S
  {
    match c
    case SaveCall(id, t) => repo.saveToken(s, id, t).0
    case UpdateCall(id, t) => repo.updateToken(s, id, t).0
    case _ => s
  }

  /** The state a repository reaches from `s` by performing the calls in `calls` in order. */
  function Replay<S>(repo: TokenRepository<S>, s: S, calls: seq<Call>): S
  {
    if calls == [] then s else Replay(repo, Apply(repo, s, calls[0]), calls[1..])
  }

  /** Counting and replaying a trace one call at a time. */
  lemma Unroll<S>(repo: TokenRepository<S>, s: S, c: Call, rest: seq<Call>)
    ensures forall k :: Count([c] + rest, k) == (if IsKind(c, k) then 1 else 0) + Count(rest, k)
    ensures Replay(repo, s, [c] + rest) == Replay(repo, Apply(repo, s, c), rest)
  {
  }

  lemma {:induction false} CountAppend(a: seq<Call>, b: seq<Call>, k: Kind)
    ensures Count(a + b, k) == Count(a, k) + Count(b, k)
  {
    if a == [] {
      assert a + b == b;
    } else {
      assert (a + b)[1..] == a[1..] + b;
      CountAppend(a[1..], b, k);
    }
  }

  lemma {:induction false} ReplayAppend<S>(repo: TokenRepository<S>, s: S, a: seq<Call>, b: seq<Call>)
    ensures Replay(repo, s, a + b) == Replay(repo, Replay(repo, s, a), b)
  {
    if a == [] {
      assert a + b == b;
    } else {
      assert (a + b)[1..] == a[1..] + b;
      assert (a + b)[0] == a[0];
      ReplayAppend(repo, Apply(repo, s, a[0]), a[1..], b);
    }
  }

  /** A trace without writes leaves every repository state as it was. */
  lemma {:induction false} ReplayWithoutWrites<S>(repo: TokenRepository<S>, s: S, calls: seq<Call>)
    ensures Writes(calls) == 0 ==> Replay(repo, s, calls) == s
  {
    if calls != [] && Writes(calls) == 0 {
      assert !calls[0].IsWrite();
      ReplayWithoutWrites(repo, s, calls[1..]);
    }
  }

  /**
   `NewTokenSource`: a source over `repo` for the identifier `id`, refreshing
   through `provider`. It keeps no token of its own: every call, from any state
   and at any time, begins with exactly one read of `repo` under `id`, decides
   on what that read gives back, moves `repo`'s state only through the writes it
   records, and writes only the token `provider` handed out, under `id`. A
   failed refresh hands back `provider`'s error, and a successful one is
   written back to `repo` and handed back when that write succeeds.
   */
  function NewTokenSource<S(!new)>(repo: TokenRepository<S>, id: Uuid, provider: Provider): (ts: TokenRefresher<S>)
    ensures ts.repo == repo && ts.id == id && ts.provider == provider
    ensures forall v, s :: var o := Token(ts, v, s);
      && o.calls[0] == GetCall(id)
      && Count(o.calls, Get) == 1
      && (forall c | c in o.calls && (c.GetCall? || c.IsWrite()) :: c.id == id)
      && o.state == Replay(repo, s, o.calls)
    ensures forall v, s :: var o := Token(ts, v, s); var g := repo.getToken(s, id);
      && (g.Err? ==> o.result == Err(g.error))
      && (g.Ok? && v.Valid(g.value) ==> o.result == Ok(g.value.value) && Writes(o.calls) == 0)
      && (forall c | c in o.calls && c.RefreshCall? :: g.Ok? && c.token == g.value)
      && (forall c | c in o.calls && c.IsWrite() ::
            g.Ok? && provider.refreshToken(g.value).Ok? &&
            c == UpdateCall(id, Some(provider.refreshToken(g.value).value)))
      && (o.result.Ok? && !(g.Ok? && v.Valid(g.value)) ==>
            g.Ok? && provider.refreshToken(g.value).Ok? &&
            o.result.value == provider.refreshToken(g.value).value)
    ensures forall v, s :: var o := Token(ts, v, s); var g := repo.getToken(s, id);
      g.Ok? && !v.Valid(g.value) ==>
        var r := provider.refreshToken(g.value);
        && (r.Err? ==> o.result == Err(r.error) && Writes(o.calls) == 0)
        && (r.Ok? ==>
              var w := repo.updateToken(s, id, Some(r.value));
              Writes(o.calls) == 1 && o.result == (if w.1.None? then Ok(r.value) else Err(w.1.value)))
  {
    TokenRefresher(repo, id, provider)
  }

  /**
   `tokenRefresher.Token`: read the token stored under the source's identifier;
   hand back a valid one untouched; otherwise refresh it once, write the new
   token back under the same identifier and hand it back. Any error ends the
   call and is handed back with no token.
   */
  function Token<S>(ts: TokenRefresher<S>, v: Validity, s: S): (o: Step<S>)
    // Every call starts by reading the store under the identifier fixed at construction.
    ensures 1 <= |o.calls| <= 3 && o.calls[0] == GetCall(ts.id) && Count(o.calls, Get) == 1
    // The refresh, when there is one, comes second, and the write-back, when there is one, comes after it.
    ensures var g := ts.repo.getToken(s, ts.id);
      |o.calls| >= 2 ==> g.Ok? && o.calls[1] == RefreshCall(g.value)
    ensures |o.calls| == 3 ==> o.calls[2].UpdateCall?
    // The state moves only through the writes the call records, and none of them is a save.
    ensures o.state == Replay(ts.repo, s, o.calls)
    ensures Saves(o.calls) == 0
    // A failed read: its error is returned, nothing is refreshed or written.
    ensures var g := ts.repo.getToken(s, ts.id);
      g.Err? ==> o.result == Err(g.error) && Refreshes(o.calls) == 0 && Writes(o.calls) == 0
    // A valid stored token is returned as stored, with no refresh and no write.
    ensures var g := ts.repo.getToken(s, ts.id);
      g.Ok? && v.Valid(g.value) ==>
        o.result == Ok(g.value.value) && Refreshes(o.calls) == 0 && Writes(o.calls) == 0
    // The provider is asked exactly once exactly when the stored token is not valid, and is given that token.
    ensures var g := ts.repo.getToken(s, ts.id);
      Refreshes(o.calls) == (if g.Ok? && !v.Valid(g.value) then 1 else 0)
    ensures var g := ts.repo.getToken(s, ts.id);
      forall c | c in o.calls && c.RefreshCall? :: g.Ok? && c.token == g.value
    // Exactly one write exactly when the refresh succeeded: the refreshed token, under the same identifier.
    ensures var g := ts.repo.getToken(s, ts.id);
      Writes(o.calls) == (if g.Ok? && !v.Valid(g.value) && ts.provider.refreshToken(g.value).Ok? then 1 else 0)
    ensures var g := ts.repo.getToken(s, ts.id);
      forall c | c in o.calls && c.IsWrite() ::
        g.Ok? && ts.provider.refreshToken(g.value).Ok? &&
        c == UpdateCall(ts.id, Some(ts.provider.refreshToken(g.value).value))
    // A failed refresh: its error is returned and the store is left as it was.
    ensures var g := ts.repo.getToken(s, ts.id);
      g.Ok? && !v.Valid(g.value) && ts.provider.refreshToken(g.value).Err? ==>
        o.result == Err(ts.provider.refreshToken(g.value).error) && o.state == s
    // After a successful refresh, the call succeeds exactly when the write does, and then returns the refreshed token.
    ensures var g := ts.repo.getToken(s, ts.id);
      g.Ok? && !v.Valid(g.value) && ts.provider.refreshToken(g.value).Ok? ==>
        var renewed := ts.provider.refreshToken(g.value).value;
        var w := ts.repo.updateToken(s, ts.id, Some(renewed));
        && o.state == w.0
        && (o.result.Ok? <==> w.1.None?)
        && (o.result.Ok? ==> o.result.value == renewed)
        && (o.result.Err? ==> o.result.error == w.1.value)
    // A token handed back is either valid or has just been written back: a stale token is never returned.
    ensures o.result.Ok? ==> v.Valid(Some(o.result.value)) || Writes(o.calls) == 1
    ensures o.result.Ok? ==> v.Valid(Some(o.result.value)) || UpdateCall(ts.id, Some(o.result.value)) in o.calls
  {
    var got := ts.repo.getToken(s, ts.id);
    Unroll(ts.repo, s, GetCall(ts.id), []);
    if got.Err? then
      Step(Err(got.error), s, [GetCall(ts.id)])
    else if v.Valid(got.value) then
      Step(Ok(got.value.value), s, [GetCall(ts.id)])
    else
      var refreshed := ts.provider.refreshToken(got.value);
      Unroll(ts.repo, s, RefreshCall(got.value), []);
      Unroll(ts.repo, s, GetCall(ts.id), [RefreshCall(got.value)]);
      if refreshed.Err? then
        Step(Err(refreshed.error), s, [GetCall(ts.id), RefreshCall(got.value)])
      else
        var write := UpdateCall(ts.id, Some(refreshed.value));
        var written := ts.repo.updateToken(s, ts.id, Some(refreshed.value));
        Unroll(ts.repo, s, write, []);
        Unroll(ts.repo, s, RefreshCall(got.value), [write]);
        Unroll(ts.repo, s, GetCall(ts.id), [RefreshCall(got.value), write]);
        if written.1.Some? then
          Step(Err(written.1.value), written.0, [GetCall(ts.id), RefreshCall(got.value), write])
        else
          Step(Ok(refreshed.value), written.0, [GetCall(ts.id), RefreshCall(got.value), write])
  }

  /**
   No result in `results` is a stale token: each token handed back is valid at
   its own request's time or was written back under `id` during the run.
   */
  ghost predicate NoStaleResults(id: Uuid, clock: seq<Validity>, results: seq<Result<OAuthToken>>, calls: seq<Call>)
    requires |results| == |clock|
  {
    forall i | 0 <= i < |clock| && results[i].Ok? ::
      clock[i].Valid(Some(results[i].value)) || UpdateCall(id, Some(results[i].value)) in calls
  }

  lemma NoStaleCons<S>(id: Uuid, clock: seq<Validity>, first: Step<S>, rest: seq<Result<OAuthToken>>, restCalls: seq<Call>)
    requires clock != [] && |rest| == |clock| - 1
    requires first.result.Ok? ==>
      clock[0].Valid(Some(first.result.value)) || UpdateCall(id, Some(first.result.value)) in first.calls
    requires NoStaleResults(id, clock[1..], rest, restCalls)
    ensures NoStaleResults(id, clock, [first.result] + rest, first.calls + restCalls)
  {
  }

  /** The outcome of requests made one after another through the same source. */
  datatype Run<S> = Run(results: seq<Result<OAuthToken>>, state: S, calls: seq<Call>)

  /**
   Successive `Token` calls on one source, one per entry of `clock`, each made
   at that entry's time and starting from the state the previous one left. An
   `oauth2.Transport` built on the source makes one such call per outgoing
   request. Each entry of `clock` carries its own `unexpired` rule as well as
   its time. A clock whose entries share one rule is the library's case, so
   what holds for every clock holds for that one.
   */
  function Requests<S>(ts: TokenRefresher<S>, clock: seq<Validity>, s: S): (run: Run<S>)
    ensures |run.results| == |clock|
    // The repository's state moves only through the writes the requests record, and none is a save.
    ensures run.state == Replay(ts.repo, s, run.calls)
    ensures Saves(run.calls) == 0
    // In total, as many reads as requests and at most as many writes.
    ensures Count(run.calls, Get) == |clock|
    ensures Writes(run.calls) <= |clock|
    // The first request is one `Token` call from the starting state; its calls open the run.
    ensures clock != [] ==>
      var first := Token(ts, clock[0], s);
      run.results[0] == first.result && first.calls <= run.calls
    // No request hands back a stale token.
    ensures NoStaleResults(ts.id, clock, run.results, run.calls)
    // Requests that write nothing leave the repository as it was.
    ensures Writes(run.calls) == 0 ==> run.state == s
    decreases |clock|
  {
    if clock == [] then Run([], s, [])
    else
      var first := Token(ts, clock[0], s);
      var rest := Requests(ts, clock[1..], first.state);
      ReplayAppend(ts.repo, s, first.calls, rest.calls);
      CountAppend(first.calls, rest.calls, AnyWrite);
      CountAppend(first.calls, rest.calls, Save);
      CountAppend(first.calls, rest.calls, Get);
      ReplayWithoutWrites(ts.repo, s, first.calls + rest.calls);
      NoStaleCons(ts.id, clock, first, rest.results, rest.calls);
      Run([first.result] + rest.results, rest.state, first.calls + rest.calls)
  }
}
