/**
 The token source of `repository.go` run against the in-memory repository of
 the persistence example: what each branch of `Token` leaves in the map, and
 what successive calls see.
 */
module MemoryTokenSource {
  import opened Tokens
  import opened Repository
  import Mem = MemoryRepository

  /** A token source built by `NewTokenSource` over the in-memory repository. */
  function Source(id: Uuid, provider: Provider): TokenRefresher<Mem.Store>
  {
    NewTokenSource(Mem.Interface(), id, provider)
  }

  /** The pointer `GetToken` hands back for `id`. */
  function Stored(s: Mem.Store, id: Uuid): TokenRef
  {
    Mem.GetToken(s, id).value
  }

  /**
   Every token the provider hands out is valid at the time of every call in
   `clock` after the first: a token issued by one request outlives all the
   requests that follow it.
   */
  ghost predicate TokensOutlive(provider: Provider, clock: seq<Validity>)
  {
    forall p, i | 0 < i < |clock| && provider.refreshToken(p).Ok? ::
      clock[i].Valid(Some(provider.refreshToken(p).value))
  }

  /** No token the provider hands out is valid at the time of any call in `clock`. */
  ghost predicate TokensExpireAtOnce(provider: Provider, clock: seq<Validity>)
  {
    forall p, i | 0 <= i < |clock| && provider.refreshToken(p).Ok? ::
      !clock[i].Valid(Some(provider.refreshToken(p).value))
  }

  /** A valid stored token is handed back with the map untouched and nothing else called. */
  lemma ValidTokenLeavesStore(id: Uuid, provider: Provider, v: Validity, s: Mem.Store)
    requires v.Valid(Stored(s, id))
    ensures Token(Source(id, provider), v, s) == Step(Ok(Stored(s, id).value), s, [GetCall(id)])
  {
  }

  /**
   A successful refresh leaves the map holding the refreshed token under the
   source's identifier, every other entry as it was, and hands that token back.
   */
  lemma RefreshWritesBack(id: Uuid, provider: Provider, v: Validity, s: Mem.Store)
    requires !v.Valid(Stored(s, id))
    requires provider.refreshToken(Stored(s, id)).Ok?
    ensures var t := provider.refreshToken(Stored(s, id)).value;
      var o := Token(Source(id, provider), v, s);
      && o.result == Ok(t)
      && o.state == s[id := Some(t)]
      && Mem.GetToken(o.state, id) == Ok(Some(t))
      && (forall other | other != id :: Mem.GetToken(o.state, other) == Mem.GetToken(s, other))
  {
  }

  /**
   Over the in-memory repository a call fails only when the provider's refresh
   fails, and then the map is left exactly as it was.
   */
  lemma FailureIsRefreshFailure(id: Uuid, provider: Provider, v: Validity, s: Mem.Store)
    ensures var o := Token(Source(id, provider), v, s);
      o.result.Err? <==> !v.Valid(Stored(s, id)) && provider.refreshToken(Stored(s, id)).Err?
    ensures var o := Token(Source(id, provider), v, s);
      o.result.Err? ==> o.result.error == provider.refreshToken(Stored(s, id)).error && o.state == s
  {
  }

  /**
   An identifier with no entry is not reported as missing: the nil token the
   read hands back is not valid, so the provider is asked to refresh it.
   */
  lemma MissingEntryIsRefreshed(id: Uuid, provider: Provider, v: Validity, s: Mem.Store)
    requires id !in s
    ensures var o := Token(Source(id, provider), v, s);
      |o.calls| >= 2 && o.calls[1] == RefreshCall(None)
      && (o.result.Err? ==> o.result.error == provider.refreshToken(None).error)
  {
  }

  /** The outcome depends on the map only through the entry under the source's identifier. */
  lemma OnlyOwnEntryMatters(id: Uuid, provider: Provider, v: Validity, s1: Mem.Store, s2: Mem.Store)
    requires Stored(s1, id) == Stored(s2, id)
    ensures Token(Source(id, provider), v, s1).result == Token(Source(id, provider), v, s2).result
    ensures Token(Source(id, provider), v, s1).calls == Token(Source(id, provider), v, s2).calls
  {
  }

  /**
   There is no cached token: when another writer has put a valid token under
   the identifier since the last call, the next call hands back that token.
   */
  lemma SeesOtherWriters(id: Uuid, provider: Provider, v: Validity, s: Mem.Store, t: OAuthToken)
    requires v.Valid(Some(t))
    ensures var written := Mem.UpdateToken(s, id, Some(t)).0;
      Token(Source(id, provider), v, written) == Step(Ok(t), written, [GetCall(id)])
  {
  }

  /**
   A token handed back that is still valid at the time of the next call is
   found by that call: it returns the token again, calls nothing but the read
   and leaves the map alone.
   */
  lemma SecondCallReusesToken(id: Uuid, provider: Provider, now: Validity, later: Validity, s: Mem.Store)
    ensures var first := Token(Source(id, provider), now, s);
      first.result.Ok? && later.Valid(Some(first.result.value)) ==>
        Token(Source(id, provider), later, first.state) == Step(first.result, first.state, [GetCall(id)])
  {
  }

  /**
   While the stored token is valid at the time of each request, the requests
   make no refresh and no write, and each hands back that token.
   */
  lemma {:induction false} ValidStaysUnwritten(id: Uuid, provider: Provider, clock: seq<Validity>, s: Mem.Store)
    requires forall i | 0 <= i < |clock| :: clock[i].Valid(Stored(s, id))
    ensures var run := Requests(Source(id, provider), clock, s);
      Writes(run.calls) == 0 && Refreshes(run.calls) == 0 && run.state == s
      && forall i | 0 <= i < |clock| :: run.results[i] == Ok(Stored(s, id).value)
    decreases |clock|
  {
    if clock != [] {
      var run := Requests(Source(id, provider), clock, s);
      var first := Token(Source(id, provider), clock[0], s);
      var rest := Requests(Source(id, provider), clock[1..], s);
      ValidStaysUnwritten(id, provider, clock[1..], s);
      CountAppend(first.calls, rest.calls, AnyWrite);
      CountAppend(first.calls, rest.calls, Refresh);
      forall i | 0 <= i < |clock|
        ensures run.results[i] == Ok(Stored(s, id).value)
      {
        if i > 0 {
          assert run.results[i] == rest.results[i - 1];
        }
      }
    }
  }

  /**
   When every token the provider hands out outlives the requests that follow,
   successive requests write back at most once: after the first successful
   refresh, every later request finds the written token valid.
   */
  lemma {:induction false} AtMostOneWriteBack(id: Uuid, provider: Provider, clock: seq<Validity>, s: Mem.Store)
    requires TokensOutlive(provider, clock)
    ensures Writes(Requests(Source(id, provider), clock, s).calls) <= 1
    decreases |clock|
  {
    if clock != [] {
      var first := Token(Source(id, provider), clock[0], s);
      var rest := Requests(Source(id, provider), clock[1..], first.state);
      CountAppend(first.calls, rest.calls, AnyWrite);
      assert TokensOutlive(provider, clock[1..]) by {
        forall p, i | 0 < i < |clock[1..]| && provider.refreshToken(p).Ok?
          ensures clock[1..][i].Valid(Some(provider.refreshToken(p).value))
        {
          assert clock[1..][i] == clock[i + 1];
        }
      }
      if Writes(first.calls) == 0 {
        AtMostOneWriteBack(id, provider, clock[1..], first.state);
      } else {
        RefreshWritesBack(id, provider, clock[0], s);
        var t := first.result.value;
        assert Stored(first.state, id) == Some(t);
        forall i | 0 <= i < |clock[1..]|
          ensures clock[1..][i].Valid(Stored(first.state, id))
        {
          assert clock[1..][i] == clock[i + 1];
        }
        ValidStaysUnwritten(id, provider, clock[1..], first.state);
      }
    }
  }

  /**
   The bound above rests on the issued tokens' lifetime. When the provider
   always answers but none of its tokens is valid at any request's time, and
   the stored token is not valid at the first, every request refreshes and
   writes back.
   */
  lemma {:induction false} ExpiringTokensWriteEveryTime(id: Uuid, provider: Provider, clock: seq<Validity>, s: Mem.Store)
    requires forall p :: provider.refreshToken(p).Ok?
    requires TokensExpireAtOnce(provider, clock)
    requires clock != [] ==> !clock[0].Valid(Stored(s, id))
    ensures Writes(Requests(Source(id, provider), clock, s).calls) == |clock|
    decreases |clock|
  {
    if clock != [] {
      var first := Token(Source(id, provider), clock[0], s);
      var rest := Requests(Source(id, provider), clock[1..], first.state);
      CountAppend(first.calls, rest.calls, AnyWrite);
      RefreshWritesBack(id, provider, clock[0], s);
      assert Stored(first.state, id) == Some(first.result.value);
      assert TokensExpireAtOnce(provider, clock[1..]) by {
        forall p, i | 0 <= i < |clock[1..]| && provider.refreshToken(p).Ok?
          ensures !clock[1..][i].Valid(Some(provider.refreshToken(p).value))
        {
          assert clock[1..][i] == clock[i + 1];
        }
      }
      if |clock| > 1 {
        assert clock[1..][0] == clock[1];
        assert first.result.value == provider.refreshToken(Stored(s, id)).value;
      }
      ExpiringTokensWriteEveryTime(id, provider, clock[1..], first.state);
    }
  }
}
