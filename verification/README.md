# Refresh-on-demand token source of factorial-go

This project models the part of the factorial-go client library that holds state.
That part is the OAuth2 token source `tokenRefresher` (`repository.go`) together with
the in-memory `TokenRepository` of the persistence example
(`examples/persistence/repository_memory.go`).

The token source is built once, with a repository, an identifier and a provider.
Each call to `Token()` goes through these steps:

1. It reads the token stored under its identifier.
2. If the read fails, it returns the read's error.
3. If the stored token is valid, it returns that token as stored.
4. Otherwise it asks the provider to refresh the token once.
5. If the refresh fails, it returns the refresh's error.
6. Otherwise it writes the new token back with `UpdateToken` under the same identifier.
   It returns the new token, or the write's error if the write fails.

The model is functional:

- `Tokens` holds the values: the 16-byte `Uuid`, `OAuthToken`, `Error` and `Result`.
  `TokenRef` is `Option<OAuthToken>`, standing for a Go `*oauth2.Token` (`None` is nil).
  `Validity` is the library's `Token.Valid()` at a time `now`.
- `Repository` holds the rest of `repository.go`.
  - `TokenRepository<S>` is the interface, as three functions over an abstract store state `S`.
  - `Provider` is the provider's `RefreshToken`.
  - `Token` is one call to `tokenRefresher.Token()` as a pure step. It gives back the
    result, the state the repository is left in, and the calls it made, in order (`Call`).
  - `Replay` applies the writes of such a trace to a state. It is the independent account
    of how state changes: every call's new state is the replay of its own trace.
  - `Requests` chains successive calls, one per entry of a sequence of `Validity` values,
    so that each call is judged at its own time. Each entry carries its own validity rule
    as well as its time. The library's single fixed rule is the case where all entries
    share one rule, so what is proved for every sequence holds for it. This is what an `oauth2.Transport` built
    on the source does, one call per outgoing HTTP request (`oauth2.go:95-102`).
- `MemoryRepository` is `memoryRepository`: a `map<Uuid, TokenRef>` with save, update and get.
  `Interface()` is its method set, viewed as a `TokenRepository`.
- `MemoryTokenSource` runs the token source against the in-memory repository. It states
  what each branch leaves in the map and what later calls see.

Two collaborators live outside this repository and enter the model as parameters:

- `oauth2.Token.Valid()` is the `unexpired` function of `Validity`, given the current time `now`.
  On a non-nil token the library checks that the access token is not empty and applies its
  expiry and clock-skew rule; `unexpired` stands for both tests, and neither is modelled.
  A nil token is never valid, which is the library's documented behaviour for a nil receiver.
- `OAuthProvider.RefreshToken` is the `refreshToken` function of `Provider`.
  Its answer is either a token or an error.

A missing identifier is not an error. The memory repository's `GetToken` returns a nil token
and no error for a key it does not hold (`examples/persistence/repository_memory.go:31-33`).
`Token()` then finds that nil token not valid and asks the provider to refresh it
(`repository.go:40-41`). `MemoryTokenSource.MissingEntryIsRefreshed` states this.

## Model

| member | source | states |
|---|---|---|
| Repository.Token | repository.go:35-51 | A call reads the store exactly once, under the source's identifier, before anything else. When there is a refresh, it is the second call and is given the stored token; when there is a write-back, it is the third call, after the refresh. Its new state is exactly the replay of the writes it records, and it never calls `SaveToken`. A failed read returns that error, with no refresh and no write. A valid stored token is returned as stored, with no refresh and no write. The provider is asked exactly once exactly when the read succeeded and the token is not valid. A write happens exactly once exactly when that refresh succeeded, and it is `UpdateToken(id, refreshed)`. A failed refresh returns its error and leaves the state unchanged. After a successful refresh, the call succeeds exactly when the write does and returns the refreshed token, and otherwise returns the write's error. A returned token is valid or was just written back, so a stale token is never returned. |
| Repository.NewTokenSource | repository.go:25-31 | The built source holds exactly the repository, identifier and provider it was given, and it keeps no token of its own. Every call on it, from any state and at any time, begins with exactly one read of that repository under that identifier, and every read and write it makes uses that identifier. The call's new state is the replay of its writes on that repository. A failed read returns the read's error, and a valid stored token is returned as read with no write. A refresh is given the token read, and the only write is that provider's refreshed token under the identifier. Any token returned that was not valid when read is that provider's refreshed token. A failed refresh returns that provider's error with no write. A successful refresh is written back once, and the call then returns the refreshed token if the write succeeds, or the write's error if it fails. |
| Repository.Requests | repository.go:35-51 | For successive calls, each at its own time, there is one result per call. In total there are exactly as many reads as calls, at most as many writes as calls, and no save. The first result is that of one `Token` call from the starting state, and that call's trace opens the run. No call hands back a stale token: each returned token is valid at its own call's time or was written back under the id during the run. The final state is the replay of all recorded writes, and a run that writes nothing leaves the store unchanged. |
| MemoryRepository.Interface | examples/persistence/repository_memory.go:9-33 | Seen through the `TokenRepository` interface, the memory repository is a store: writes never fail, save and update are the same write, a read never fails and gives back the last write under its id, and a write under one id leaves every other id as it was. |
| MemoryRepository.NewMemoryRepository | examples/persistence/repository_memory.go:15-19 | A new repository is the memory method set over a store with no entries, and every read from it gives a nil token with no error. |
| MemoryRepository.SaveToken | examples/persistence/repository_memory.go:21-24 | Saving never fails. A later read under the same id gives back exactly the saved token. Every other id reads as before, and the key set gains exactly `id`. |
| MemoryRepository.UpdateToken | examples/persistence/repository_memory.go:26-29 | Updating is the same write as saving: it inserts or overwrites, never fails, and leaves every other id as it was. |
| MemoryRepository.GetToken | examples/persistence/repository_memory.go:31-33 | A read never fails. It gives the stored entry, and a nil token (not an error) for an id with no entry. |
| MemoryRepository.LastWriteWins | examples/persistence/repository_memory.go:21-29 | An update after a save under the same id leaves the store as if only the update had been made. |
| MemoryTokenSource.ValidTokenLeavesStore | repository.go:40-50 | Over the memory store, a valid stored token is returned as stored. The map is unchanged, and the read is the only call made. |
| MemoryTokenSource.RefreshWritesBack | repository.go:40-48 | Over the memory store, a successful refresh of a token that is not valid returns the refreshed token. The map then holds it under the source's id, and every other entry is as before. |
| MemoryTokenSource.FailureIsRefreshFailure | repository.go:36-47 | Over the memory store, a call fails if and only if the stored token is not valid and its refresh fails. It then returns the refresh's error and leaves the map unchanged. |
| MemoryTokenSource.MissingEntryIsRefreshed | repository.go:36-41 | An id with no entry is not reported as missing. The provider is asked to refresh the nil token, and any failure is the refresh's error. |
| MemoryTokenSource.OnlyOwnEntryMatters | repository.go:35-40 | The result and the calls made depend on the map only through the entry under the source's id. |
| MemoryTokenSource.SeesOtherWriters | repository.go:35-40 | Nothing is cached between calls. After another writer stores a valid token under the id, the next call returns that token and makes no other call. |
| MemoryTokenSource.SecondCallReusesToken | repository.go:35-50 | If a call returns a token that is valid at the time of the next call, the next call returns the same token. That call makes only the read and leaves the map unchanged. |
| MemoryTokenSource.ValidStaysUnwritten | repository.go:40-50 | While the stored token is valid at the time of each successive call, the calls refresh nothing and write nothing, and each returns that token. |
| MemoryTokenSource.AtMostOneWriteBack | repository.go:40-48 | If every token the provider issues is valid at the time of every call after the first, whichever call issued it, successive calls write back at most once. |
| MemoryTokenSource.ExpiringTokensWriteEveryTime | repository.go:40-48 | If the provider always answers but none of its tokens is valid at any call's time, and the stored token is not valid at the first call, then every call refreshes and writes back. The at-most-once bound therefore depends on token lifetime. |

## Left out

- The resource modules (employees, leaves, shifts, documents, folders, webhooks, hiring versions, locations, payslips, company holidays, teams): each is a JSON-encode, HTTP-call, JSON-decode wrapper with no logic of its own.
- The HTTP transport in `factorial.go` (`do`, `get`, `post`, `put`): header setting, URL concatenation and a status check around network I/O.
- `oauth.go` (`GetToken`, `RefreshToken`, `doRequest`): a POST to the token endpoint with a timeout, which is network I/O.
- `OAuthProvider` in `oauth2.go` (`GetAuthURL`, `GetTokenFromCode`, `RefreshToken`, `Client`, `ClientWithSource`): it delegates entirely to the external OAuth2 library. Its `RefreshToken` is the `Provider` oracle.
- The expiry and clock-skew rule of `oauth2.Token.Valid()`: it lives in the external library. It is the `unexpired` parameter of `Validity`, with no floating-point time.
- The provider's refresh is modelled as a function of the token it is given. A network answer that differs between two identical requests is therefore not represented.
- A `TokenRepository`'s `GetToken` is modelled as a pure read that cannot change the store. The Go interface does not forbid a read with side effects. The memory repository's read has none.
- The race between concurrent callers sharing one repository, where two callers both refresh an expired token: the code does not handle it, and the model is sequential.
- The example programs (`examples/server/main.go`, `examples/employees/main.go`, `examples/token/main.go`) and both `templates.go` files: HTTP serving, goroutines, signals, logging, global state and HTML strings.
