# url_shortener: the URL repository and service, modelled in Dafny

This project models the core of a URL shortener written in Rust on top of Redis.
A long URL gets a short code. A visit to the code is counted. Each anonymous user
has a history of the links they created, most recent first.

The model covers four parts:

- **Repository** (`RedisUrlRepoImpl`, module `RedisUrlRepo`). It works over an
  abstract store, not over Redis. The store holds:
  - the URL counter and the user counter;
  - the record hashes, by key;
  - one sorted set per user, by key, holding the codes that user created, scored
    by creation time in milliseconds.

  Every operation is one step from a store to a `(result, store)` pair. Key
  namespacing, code allocation, `generate`, `get`, `increment_counter`,
  `new_user`, `save_for_user`, `generate_for_user` and `get_last_n_for_user` are
  all modelled.
- **Sorted set** (module `SortedSet`). This is the part of a Redis sorted set the
  repository relies on: `ZADD` and `ZREVRANGE`, with Redis's ordering by score
  and then by member bytes, and Redis's reading of negative rank indices.
- **Store invariant** (module `RepoInvariant`). `Wf` says three things:
  - every complete record sits under the key of its own code, and that code was
    issued by the counter;
  - every history is a valid sorted set;
  - every code in a history resolves.

  Every operation keeps `Wf`. Fresh codes and the newest-first listing rest on
  it; reading back what was written and exact counts hold on every store.
- **Service and link helpers** (modules `UrlService`, `Api`, `Utils`). The
  service delegates to the repository and counts a visit only when the lookup
  succeeds. The link helpers are `build_url`, in both of its copies, and
  `serialize`.

Things that stay outside the model become explicit parameters:

- The encoder (a configured hashids instance) is a function `enc: nat -> string`.
  Every property that needs distinct codes requires `Injective(enc)`.
- The wall-clock score is a parameter `now`.
- The public domain is a parameter `domain`.
- Whether a round trip to the store gets through is a boolean: `up`, `writeUp`,
  `indexUp`, `readUp` or `incrementUp`.
- Whether the Redis client converts `HINCRBY`'s integer reply into the `String`
  that `increment_counter` asks for (src/urls/redis_url_repo.rs:105) is a boolean,
  `stringReply`. The client's version is not part of this model.

Modelling decisions:

- **Return types.** The `UrlRepo` and `UrlService` traits (src/urls/types.rs)
  return `Option`/`bool`, but the Redis implementation returns
  `Result<_, UrlError>`. The model uses a single `Result<T> = Ok(value) | Err(UrlError)`.
  `None` and `false` both become `Err`.
- **Allocation failure in `generate`.** `generate` unwraps the allocation, so a
  failed `INCR` there is a panic, not an error. The model treats allocation as
  total. A failed write after the allocation returns `Err` and abandons the code:
  the counter has still moved.
- **`increment_counter` on a code with no record.** On a missing key `HINCRBY`
  creates a hash holding only `count = 1` and replies with the new value. The
  model follows this:
  - the hash becomes `CountOnly(1)`;
  - `get` on that code still fails. `HMGET` replies with nil for the fields the
    hash lacks. Depending on the client's version, either the conversion of a
    nil entry to `String` fails (the `_` arm at src/urls/redis_url_repo.rs:93),
    or the nil entries are dropped and the three-field length check at
    src/urls/redis_url_repo.rs:82 fails. Both give `Err`.
- **Result of `increment_counter`.** The call returns `Ok(true)` only if the
  client converts the integer reply into a `String`. Otherwise it returns `Err`
  although the count has already gone up. Both outcomes are modelled through
  `stringReply`, and the store changes the same way in both.

## Model

| member | source | states |
|---|---|---|
| `RedisUrlRepo.GetKey` | src/urls/redis_url_repo.rs:27-29 | a record key is `url_shortener:urls:` followed by the code, and the code can be read back as the suffix |
| `RedisUrlRepo.GetUserKey` | src/urls/redis_url_repo.rs:31-33 | a user key is `url_shortener:users:` followed by the user, and the user can be read back as the suffix |
| `RedisUrlRepo.KeysInjective` | src/urls/redis_url_repo.rs:27-33 | two codes share a record key exactly when they are equal; the same holds for users and user keys |
| `RedisUrlRepo.KeySpacesDisjoint` | src/urls/redis_url_repo.rs:9-33 | no record key equals a user key, and neither equals one of the two counter keys, so the store splits into independent parts |
| `RedisUrlRepo.GetNextKey` | src/urls/redis_url_repo.rs:35-43 | an allocation raises the URL counter by one, touches nothing else, and returns the encoding of the new counter value |
| `RedisUrlRepo.NextKeys` | src/urls/redis_url_repo.rs:35-43 | k successive allocations return the encodings of the k counter values after the old one, in order, and advance the counter by k |
| `RepoInvariant.SuccessiveKeysDiffer` | src/urls/redis_url_repo.rs:166-172 | with an injective encoder, two successive allocations return different codes |
| `RepoInvariant.AllocatedKeysDistinct` | src/urls/redis_url_repo.rs:35-43 | with an injective encoder, k successive allocations return pairwise different codes, each the encoding of a counter value above the one before the first call |
| `RepoInvariant.NextCodeIsFresh` | src/urls/redis_url_repo.rs:35-69 | in a well-formed store the next code resolves to no record and is in no user's history |
| `RedisUrlRepo.SaveForUser` | src/urls/redis_url_repo.rs:45-54 | when the round trip gets through, the user's sorted set becomes `ZADD` of the code at score `now`; otherwise nothing changes; counters, records and other users' histories are untouched in either case |
| `SortedSet.Add` | src/urls/redis_url_repo.rs:48-52 | `ZADD` keeps a valid sorted set valid, holds the member at the given score, adds it to the members, and keeps every other member's entry as it was |
| `SortedSet.RevRange` | src/urls/redis_url_repo.rs:133 | `ZREVRANGE 0 stop` lists members from the highest rank down: the top min(stop + 1, size) when stop >= 0, and the top max(size + stop + 1, 0) when stop < 0, so stop = -1 lists the whole set |
| `RedisUrlRepo.Generate` | src/urls/redis_url_repo.rs:59-69 | the counter always advances; the call succeeds exactly when the write gets through, returning `{id: enc(new counter), url, count: 0}`; `get` of that code then returns this same record; all other record keys are unchanged, and on failure no record changes |
| `RepoInvariant.GenerateNeverOverwrites` | src/urls/redis_url_repo.rs:59-69 | with an injective encoder and a well-formed store, the code `generate` stores had no record before |
| `RepoInvariant.GenerateThenGet` | src/urls/redis_url_repo.rs:184-191 | `get` of a freshly generated code returns the generated record, with the given url and count 0 |
| `RedisUrlRepo.Get` | src/urls/redis_url_repo.rs:71-95 | `get` fails when no hash is stored under the code's key or the round trip fails, and otherwise succeeds exactly when the hash is complete (a missing field is a nil entry that does not convert), returning its fields; it returns no store, so it changes nothing |
| `RepoInvariant.GetUnknownFails` | src/urls/redis_url_repo.rs:186-187 | `get` of a code that was never stored fails |
| `RepoInvariant.StoredIdMatches` | src/urls/redis_url_repo.rs:71-95 | in a well-formed store, the record `get` returns for a code carries that code |
| `RedisUrlRepo.IncrementCounter` | src/urls/redis_url_repo.rs:97-107 | when the round trip gets through, an existing record's count is one higher with id and url unchanged, and a key holding nothing gets a count-only hash of 1 that still does not resolve; the call returns `Ok(true)` exactly when the round trip gets through and the integer reply converts to a string, so it can fail after the count went up; no other key, counter or history changes |
| `RepoInvariant.IncrementManyAddsK` | src/urls/redis_url_repo.rs:195-202 | after k increments that all get through, `get` returns the record with its count raised by exactly k |
| `RedisUrlRepo.NewUser` | src/urls/redis_url_repo.rs:109-116 | a new user advances only the user counter and returns the encoding of the new value; URL counter, records and histories are untouched; a failed round trip changes nothing |
| `RepoInvariant.SuccessiveUsersDiffer` | src/urls/redis_url_repo.rs:206-212 | with an injective encoder, two successive new users differ, and the URL counter, records and histories stay as they were |
| `RedisUrlRepo.GenerateForUser` | src/urls/redis_url_repo.rs:118-127 | the result is that of `generate`, with url equal to the input, whether or not the history append gets through; the record resolves either way; when the append gets through the user's history becomes `ZADD` of the code at score `now`, and otherwise histories are untouched; other users' histories and all other record keys never change; a failed `generate` leaves records and histories untouched |
| `RedisUrlRepo.Resolve` | src/urls/redis_url_repo.rs:134-138 | the loop returns at most one record per code, and when every code resolves it returns exactly their records in list order |
| `RedisUrlRepo.ResolveSound` | src/urls/redis_url_repo.rs:134-138 | every record the loop returns is what `get` returns for some listed code |
| `RedisUrlRepo.ResolveComplete` | src/urls/redis_url_repo.rs:134-138 | every listed code that resolves contributes its record |
| `RedisUrlRepo.ResolveKeepsOrder` | src/urls/redis_url_repo.rs:134-138 | two records in the loop's output come from codes in the same relative order |
| `RedisUrlRepo.GetLastNForUserAsWritten` | src/urls/redis_url_repo.rs:129-141 | the listing as written returns nothing on a failed round trip, never more records than the history holds, at most n when n > 0, and only records of codes in the history that resolve |
| `RedisUrlRepo.LastZeroReturnsEverything` | src/urls/redis_url_repo.rs:133 | as written, n = 0 on a non-empty history whose codes resolve returns the whole history instead of nothing |
| `RedisUrlRepo.GetLastNForUser` | src/urls/redis_url_repo.rs:129-141 | the listing returns at most max(n, 0) records and never more than the history holds; it returns only records of codes in the history that resolve; every code among the top n that resolves is included; for n > 0 it is the listing as written |
| `RepoInvariant.LastNDescending` | src/urls/redis_url_repo.rs:129-141 | in a well-formed store the listed codes are distinct, in descending score order, with equal scores in descending member order |
| `RepoInvariant.LastNDropsNothing` | src/urls/redis_url_repo.rs:129-141 | in a well-formed store, with n > 0, the listing is exactly the records of the top min(n, size) codes of the history, highest rank first |
| `RepoInvariant.CreationOnTop` | src/urls/redis_url_repo.rs:118-127 | in a well-formed store, a creation for a user scored above everything in that user's history succeeds, puts its code last in the ascending sorted set, and leaves every code that resolved before resolving to the same record |
| `RepoInvariant.LastTwoAfterTwoCreations` | src/urls/redis_url_repo.rs:225-231 | two links created one after the other for the same user, the first later than everything already in that user's history and the second with a strictly later timestamp than the first, are listed as `[second, first]` |
| `RepoInvariant.GenerateKeepsWf` | src/urls/redis_url_repo.rs:59-69 | `generate` keeps the store well formed |
| `RepoInvariant.IncrementCounterKeepsWf` | src/urls/redis_url_repo.rs:97-107 | `increment_counter` keeps the store well formed, count-only hashes included |
| `RepoInvariant.NewUserKeepsWf` | src/urls/redis_url_repo.rs:109-116 | `new_user` keeps the store well formed |
| `RepoInvariant.SaveForUserKeepsWf` | src/urls/redis_url_repo.rs:45-54 | adding a code that resolves to a history keeps the store well formed |
| `RepoInvariant.GenerateForUserKeepsWf` | src/urls/redis_url_repo.rs:118-127 | `generate_for_user` keeps the store well formed |
| `UrlService.Shorten` | src/urls/url_service.rs:12-14 | `shorten` is exactly the repository's `generate_for_user`, returning a record with the given url and count 0 that resolves |
| `UrlService.Get` | src/urls/url_service.rs:16-22 | the result is the repository `get`'s; on failure the store is unchanged; on success the store is that of exactly one `increment_counter` of the code, whatever its reply, and the count is then one above the count returned; a failed increment still returns the record |
| `UrlService.ShortenThenVisit` | src/urls/url_service.rs:39-70 | a shortened link, when visited, returns the created record with count 0, and the stored count is then 1 |
| `UrlService.VisitUnknownFails` | src/urls/url_service.rs:18-21 | a visit of a code never created fails and leaves the store as it was |
| `UrlService.NewUser` | src/urls/url_service.rs:24-26 | `new_user` is exactly the repository's, and leaves the URL counter, records and histories as they were |
| `UrlService.GetLastNForUser` | src/urls/url_service.rs:28-30 | `get_last_n_for_user` passes on the repository's listing as written: at most n records when n > 0, where it equals the corrected listing, so the ordering and completeness lemmas carry over; n <= 0 keeps the behaviour of the Findings row |
| `Api.BuildUrl` | src/urls/api.rs:24-32 | the short link is `http://` + domain + `/` + code when the domain starts with `localhost`, `https://` + domain + `/` + code otherwise, and ends with `/` + code |
| `Api.PlainHttpIffLocal` | src/urls/api.rs:26-31 | the short link starts with `http://` exactly when the domain starts with `localhost` |
| `Api.IdOfShortUrl` | src/urls/api.rs:12-32 | the code the `/{id}` route reads out of a short link of this domain is a single non-empty path segment free of `/`, `?` and `#`, and `build_url` of it rebuilds that link |
| `Api.ShortUrlRoundTrip` | src/urls/api.rs:24-32 | a built short link leads back to its code exactly when the code is one non-empty path segment free of `?` and `#`, as codes over the default alphanumeric hashids alphabet (src/hashids.rs:6) are; any other code gives a link from which the route does not read that code |
| `Api.BuildUrlInjective` | src/urls/api.rs:24-32 | distinct codes get distinct short links |
| `Api.Serialize` | src/urls/api.rs:15-22 | `serialize` keeps id, target url and count, and its short link is `build_url` of the id, ending with `/` + id |
| `Utils.BuildUrl` | src/urls/utils.rs:8-16 | the trait's short link of a record agrees with `api.rs`'s `build_url` of its id: plain http for a `localhost` domain, https otherwise |
| `Utils.BuildUrlOnlyReadsId` | src/urls/utils.rs:15 | records with the same id have the same short link, whatever their target and count |

## Findings

| source | as written | input that shows it | evidently intended | confidence | as-written member | corrected member |
|---|---|---|---|---|---|---|
| src/urls/redis_url_repo.rs:133 | the listing asks for `ZREVRANGE key 0 (n - 1)`; Redis reads a negative stop index as counted from the end | `n = 0` on a history holding one code that resolves: stop is `-1`, the last rank, so one record comes back instead of none; more generally, `n <= 0` returns the whole history but the last `-n` entries | at most `max(n, 0)` records, so none for `n <= 0` | medium: the only caller passes 25, so the path is not reached in practice; not executed | `RedisUrlRepo.GetLastNForUserAsWritten` (shown by `RedisUrlRepo.LastZeroReturnsEverything`) | `RedisUrlRepo.GetLastNForUser` (which the ordering and completeness lemmas of `RepoInvariant` are about) |

## Left out

- Redis client and connection handling, `RedisResult` conversions and `From<RedisError>` (src/urls/redis_url_repo.rs:15-19) are I/O. The abstract store replaces them, and each round trip's success is a boolean parameter.
- Async execution and concurrency are not modelled. Each operation is one sequential step, and the atomicity of `INCR` and `HINCRBY` under concurrent callers is outside the model.
- `RedisUrlRepo.GetNextKey`: a failed `INCR` makes `generate` panic (the `unwrap` at src/urls/redis_url_repo.rs:61), so allocation is modelled as always succeeding.
- `RedisUrlRepo.GetLastNForUser`: one `up` flag governs the whole listing. A round trip that fails for a single `get` inside the loop, which would drop just that record, is not modelled separately.
- The hashids algorithm and its configuration from the environment (src/hashids.rs) are foreign code. The encoder is a parameter, and injectivity is a precondition of the properties that need it.
- `SystemTime::now()` (src/urls/redis_url_repo.rs:51) becomes the parameter `now`. The score travels as a decimal string and Redis stores it as a double, which is exact for millisecond times below 2^53. The model keeps it as an integer.
- Counters and counts are unbounded. Redis refuses `INCR`/`HINCRBY` past 2^63 - 1, and `count` is a `u64` in the record; neither overflow is modelled.
- `RedisUrlRepo.IncrementCounter`: which outcome the real client gives is left open. The model does not fix the redis client's version, and releases that refuse to turn an integer reply into a `String` make the call return `Err` every time the count goes up. `stringReply` covers both cases.
- `UrlService.GetLastNForUser`: `n` is an `isize`, and `n - 1` at src/urls/redis_url_repo.rs:133 overflows at `isize::MIN`. That is a panic in a debug build and a wrap to `isize::MAX`, the whole history, in a release build. The model's `n` is an unbounded integer, and the same holds for `RedisUrlRepo.GetLastNForUserAsWritten`.
- `Api.IdOfShortUrl`: actix's percent-decoding of the path segment is not modelled, and neither is the splitting of a link into path, query and fragment; a code holding `?` or `#` is simply not a route segment. The encoder is not constrained to produce route segments, so `Api.ShortUrlRoundTrip` states the outcome for both kinds of code.
- `RepoInvariant.LastTwoAfterTwoCreations`: requires the second creation's timestamp to be strictly later than the first's. Both scores come from the clock (src/urls/redis_url_repo.rs:51), so the two calls of the test at src/urls/redis_url_repo.rs:227-230 can land in the same millisecond. Redis then orders the two codes by member bytes, as `SortedSet.Below` does, and the listing can come back as `[first, second]`. The same-millisecond case is not covered by the lemma.
- `count.parse().unwrap()` (src/urls/redis_url_repo.rs:86) would panic on a non-numeric stored count. The model's store only holds numbers.
- Redis type errors on keys holding another kind of value are not modelled. `RedisUrlRepo.KeySpacesDisjoint` shows the repository's own keys never overlap, and writers other than this repository are out of scope.
- `std::env::var("DOMAIN")` and its `expect` (src/urls/api.rs:25, src/urls/utils.rs:9) become the parameter `domain`.
- The HTTP handlers `index`, `shorten`, `redirect` and `configure` (src/urls/api.rs), identity cookies, Tera templates and the validator's URL check are HTTP plumbing and foreign libraries. Only the pure helpers of api.rs are modelled.
- src/main.rs (server bootstrap) and the `Display` impl of src/urls/error.rs are not part of this model. The error is the single constructor `UrlError`.
- The mockall scaffolding of src/urls/types.rs is not modelled.
