/**
 The in-memory `TokenRepository` of the persistence example: a map from
 identifier to token pointer. Its writes never fail and its reads never fail,
 not even for an identifier it has never seen.
 */
module MemoryRepository {
  import opened Tokens
  import Repository

  /** `memoryRepository.tokens`. A Go map entry may hold a nil pointer. */
  type Store = map<Uuid, TokenRef>

  /** `GetToken`: the entry stored under `id`; a nil token, and no error, when there is none. */
  function GetToken(m: Store, id: Uuid): (r: Result<TokenRef>)
    ensures r.Ok?
    ensures id in m ==> r.value == m[id]
    ensures id !in m ==> r.value == None
  {
    Ok(if id in m then m[id] else None)
  }

  /** `SaveToken`: store `t` under `id`, replacing any earlier entry. */
  function SaveToken(m: Store, id: Uuid, t: TokenRef): (r: (Store, Option<Error>))
    ensures r.1 == None
    ensures GetToken(r.0, id) == Ok(t)
    ensures forall other | other != id :: GetToken(r.0, other) == GetToken(m, other)
    ensures r.0.Keys == m.Keys + {id}
  {
    (m[id := t], None)
  }

  /** `UpdateToken`: the same write as `SaveToken`; an absent entry is inserted, not refused. */
  function UpdateToken(m: Store, id: Uuid, t: TokenRef): (r: (Store, Option<Error>))
    ensures r == SaveToken(m, id, t)
  {
    (m[id := t], None)
  }

  /**
   The method set of `*memoryRepository`, seen through the `TokenRepository`
   interface: a store in which writes never fail, saving and updating are the
   same write, a read never fails and gives back the last write under its
   identifier, and a write under one identifier leaves every other as it was.
   */
  function Interface(): (repo: Repository.TokenRepository<Store>)
    ensures forall m, id, t :: repo.saveToken(m, id, t) == repo.updateToken(m, id, t)
    ensures forall m, id, t :: repo.updateToken(m, id, t).1 == None
    ensures forall m, id, t :: repo.getToken(repo.updateToken(m, id, t).0, id) == Ok(t)
    ensures forall m, id, t, other | other != id ::
      repo.getToken(repo.updateToken(m, id, t).0, other) == repo.getToken(m, other)
    ensures forall m, id :: repo.getToken(m, id).Ok?
  {
    Repository.TokenRepository(
      (m: Store, id: Uuid, t: TokenRef) => SaveToken(m, id, t),
      (m: Store, id: Uuid, t: TokenRef) => UpdateToken(m, id, t),
      (m: Store, id: Uuid) => GetToken(m, id))
  }

  /** `NewMemoryRepository`: the interface together with a store that holds no token. */
  function NewMemoryRepository(): (r: (Repository.TokenRepository<Store>, Store))
    ensures r.0 == Interface()
    ensures forall id :: r.0.getToken(r.1, id) == Ok(None)
    ensures |r.1| == 0
  {
    (Interface(), map[])
  }

  /** A second write under the same identifier hides the first entirely. */
  lemma LastWriteWins(m: Store, id: Uuid, t1: TokenRef, t2: TokenRef)
    ensures UpdateToken(SaveToken(m, id, t1).0, id, t2).0 == SaveToken(m, id, t2).0
  {
  }
}
