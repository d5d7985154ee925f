/** The URL repository over an abstract key-value store: namespaced keys, the two
    counters, the record hashes and the per-user sorted sets of created codes.
    Each operation is one sequential step from a store to a (result, store) pair;
    whether a round trip to the store gets through is an explicit boolean. */
module RedisUrlRepo {
  import opened Types
  import opened Strings
  import opened SortedSet

  const UrlCounterKey: string := "url_shortener:url_counter"
  const UserCounterKey: string := "url_shortener:user_counter"
  const UrlsKey: string := "url_shortener:urls"
  const UsersKey: string := "url_shortener:users"

  /** The configured hashids instance, from a counter value to a short code. */
  type Encoder = nat -> string

  /** The one guarantee short codes rest on: distinct counters, distinct codes. */
  ghost predicate Injective(enc: Encoder) {
    forall a: nat, b: nat :: enc(a) == enc(b) ==> a == b
  }

  /** The fields of the hash stored under a record key. A complete hash holds id,
      url and count; HINCRBY on a key that holds nothing creates a hash whose only
      field is the count. */
  datatype Hash = Complete(record: Url) | CountOnly(count: nat)

  /** The store: the URL counter, the user counter, the record hashes by key and
      the per-user sorted sets by key. A missing counter reads as 0. */
  datatype Store = Store(
    urlCounter: nat,
    userCounter: nat,
    hashes: map<string, Hash>,
    users: map<string, ZSet>)

  const EmptyStore: Store := Store(0, 0, map[], map[])

  function GetKey(id: string): (k: string)
    ensures StartsWith(k, UrlsKey + ":") && k[|UrlsKey| + 1..] == id
  {
    UrlsKey + ":" + id
  }

  function GetUserKey(id: string): (k: string)
    ensures StartsWith(k, UsersKey + ":") && k[|UsersKey| + 1..] == id
  {
    UsersKey + ":" + id
  }

  lemma KeysInjective(a: string, b: string)
    ensures GetKey(a) == GetKey(b) <==> a == b
    ensures GetUserKey(a) == GetUserKey(b) <==> a == b
  {
  }

  /** Record keys, user keys and the two counter keys never collide, so the store
      can be split into the separate parts of Store. */
  lemma KeySpacesDisjoint(a: string, b: string)
    ensures GetKey(a) != GetUserKey(b)
    ensures GetKey(a) != UrlCounterKey && GetKey(a) != UserCounterKey
    ensures GetUserKey(a) != UrlCounterKey && GetUserKey(a) != UserCounterKey
  {
    assert GetKey(a)[15] == 'r' && GetKey(a)[17] == 's';
    assert GetUserKey(b)[15] == 's' && GetUserKey(a)[18] == 's';
    assert UrlCounterKey[15] == 'r' && UrlCounterKey[17] == '_';
    assert UserCounterKey[15] == 's' && UserCounterKey[18] == '_';
  }

  /** The sorted set under a user's key; a missing key reads as the empty set. */
  function Index(s: Store, user: string): ZSet {
    if GetUserKey(user) in s.users then s.users[GetUserKey(user)] else []
  }

  /** INCR on the URL counter, then the encoder on the new value. */
  function GetNextKey(enc: Encoder, s: Store): (r: (string, Store))
    ensures r.1.urlCounter == s.urlCounter + 1
    ensures r.1 == s.(urlCounter := r.1.urlCounter)
    ensures r.0 == enc(r.1.urlCounter)
  {
    var counter := s.urlCounter + 1;
    (enc(counter), s.(urlCounter := counter))
  }

  /** `k` successive allocations, in order. */
  function NextKeys(enc: Encoder, s: Store, k: nat): (r: (seq<string>, Store))
    ensures |r.0| == k
    ensures r.1 == s.(urlCounter := s.urlCounter + k)
    ensures forall i :: 0 <= i < k ==> r.0[i] == enc(s.urlCounter + 1 + i)
    decreases k
  {
    if k == 0 then ([], s)
    else
      var (code, s1) := GetNextKey(enc, s);
      var (rest, s2) := NextKeys(enc, s1, k - 1);
      ([code] + rest, s2)
  }

  /** ZADD of the code under the user's key, scored by the creation time in
      milliseconds; a failed round trip leaves everything as it was. */
  function SaveForUser(s: Store, id: string, user: string, now: nat, up: bool): (r: Store)
    ensures r.urlCounter == s.urlCounter && r.userCounter == s.userCounter
    ensures r.hashes == s.hashes
    ensures up ==> Index(r, user) == Add(Index(s, user), id, now)
    ensures !up ==> r == s
    ensures forall other :: other != user ==> Index(r, other) == Index(s, other)
    ensures forall k :: k in r.users ==> k in s.users || k == GetUserKey(user)
  {
    if up then s.(users := s.users[GetUserKey(user) := Add(Index(s, user), id, now)])
    else s
  }

  /** Allocates a code and writes the complete hash {id, url, count: 0} under its
      key. The allocation always happens; if the write's round trip fails the code
      is abandoned and the call fails. */
  function Generate(enc: Encoder, s: Store, url: string, up: bool): (r: (Result<Url>, Store))
    ensures r.1.urlCounter == s.urlCounter + 1
    ensures r.1.userCounter == s.userCounter && r.1.users == s.users
    ensures r.0.Ok? <==> up
    ensures r.0.Ok? ==> r.0.value == Url(enc(r.1.urlCounter), url, 0)
    ensures r.0.Ok? ==> Get(r.1, r.0.value.id, true) == r.0
    ensures r.0.Err? ==> r.1.hashes == s.hashes
    ensures r.0.Ok? ==> forall k :: k != GetKey(r.0.value.id) ==>
      (k in r.1.hashes <==> k in s.hashes) && (k in s.hashes ==> r.1.hashes[k] == s.hashes[k])
  {
    var (code, s1) := GetNextKey(enc, s);
    if !up then (Err(UrlError), s1)
    else
      var u := Url(code, url, 0);
      (Ok(u), s1.(hashes := s1.hashes[GetKey(code) := Complete(u)]))
  }

  /** HMGET of the three fields. Redis replies with nil for a field the key does
      not hold. Depending on the client, a nil entry either fails the conversion
      to a string or is dropped so that fewer than three entries remain; both
      make anything short of a complete hash, including no hash at all, an
      error. So does a failed round trip. */
  function Get(s: Store, id: string, up: bool): (r: Result<Url>)
    ensures GetKey(id) !in s.hashes ==> r.Err?
    ensures !up ==> r.Err?
    ensures r.Ok? <==> up && GetKey(id) in s.hashes && s.hashes[GetKey(id)].Complete?
    ensures r.Ok? ==> r.value == s.hashes[GetKey(id)].record
  {
    if !up then Err(UrlError)
    else if GetKey(id) !in s.hashes then Err(UrlError)
    else
      match s.hashes[GetKey(id)]
      case Complete(u) => Ok(u)
      case CountOnly(_) => Err(UrlError)
  }

  /** The hash under a record key after HINCRBY count 1: a key holding nothing
      gets a count-only hash of 1, otherwise the count goes up by one. */
  function Bump(h: Option<Hash>): Hash {
    match h
    case None => CountOnly(1)
    case Some(Complete(u)) => Complete(u.(count := u.count + 1))
    case Some(CountOnly(c)) => CountOnly(c + 1)
  }

  function Lookup(m: map<string, Hash>, k: string): Option<Hash> {
    if k in m then Some(m[k]) else None
  }

  /** HINCRBY count 1 on the record key. Like HINCRBY it succeeds on a key that
      holds no hash, leaving there a count-only hash that still does not resolve.
      HINCRBY replies with an integer, which the call asks the client to convert
      into a string; `stringReply` says whether the client accepts that
      conversion. When it does not, the call fails although the count has
      already gone up. */
  function IncrementCounter(s: Store, id: string, up: bool, stringReply: bool): (r: (Result<bool>, Store))
    ensures r.0.Ok? <==> up && stringReply
    ensures r.0.Ok? ==> r.0.value
    ensures !up ==> r.1 == s
    ensures r.1.urlCounter == s.urlCounter && r.1.userCounter == s.userCounter
    ensures r.1.users == s.users
    ensures forall k :: k != GetKey(id) ==>
      (k in r.1.hashes <==> k in s.hashes) && (k in s.hashes ==> r.1.hashes[k] == s.hashes[k])
    ensures up && Get(s, id, true).Ok? ==>
      var u := Get(s, id, true).value;
      Get(r.1, id, true) == Ok(Url(u.id, u.url, u.count + 1))
    ensures up && GetKey(id) !in s.hashes ==> GetKey(id) in r.1.hashes && r.1.hashes[GetKey(id)] == CountOnly(1)
    ensures Get(s, id, true).Err? ==> Get(r.1, id, true).Err?
  {
    if !up then (Err(UrlError), s)
    else
      var key := GetKey(id);
      var s' := s.(hashes := s.hashes[key := Bump(Lookup(s.hashes, key))]);
      (if stringReply then Ok(true) else Err(UrlError), s')
  }

  /** The store after an increment does not depend on how its reply converts. */
  lemma IncrementStoreIgnoresReply(s: Store, id: string, up: bool)
    ensures IncrementCounter(s, id, up, true).1 == IncrementCounter(s, id, up, false).1
  {
  }

  /** `k` increments that all get through. */
  function IncrementMany(s: Store, id: string, k: nat): (r: Store)
    ensures r.urlCounter == s.urlCounter && r.userCounter == s.userCounter
    ensures r.users == s.users
    decreases k
  {
    if k == 0 then s else IncrementMany(IncrementCounter(s, id, true, true).1, id, k - 1)
  }

  /** INCR on the user counter, then the encoder; no user record is written. */
  function NewUser(enc: Encoder, s: Store, up: bool): (r: (Result<string>, Store))
    ensures up ==> r.0 == Ok(enc(s.userCounter + 1))
    ensures up ==> r.1 == s.(userCounter := s.userCounter + 1)
    ensures !up ==> r.0.Err? && r.1 == s
  {
    if !up then (Err(UrlError), s)
    else
      var counter := s.userCounter + 1;
      (Ok(enc(counter)), s.(userCounter := counter))
  }

  /** Generate, then a best-effort ZADD into the user's history. */
  function GenerateForUser(enc: Encoder, s: Store, url: string, user: string, now: nat,
                           writeUp: bool, indexUp: bool): (r: (Result<Url>, Store))
    ensures r.0 == Generate(enc, s, url, writeUp).0
    ensures r.0.Ok? ==> r.0.value.url == url && r.0.value.count == 0
    ensures r.0.Ok? ==> Get(r.1, r.0.value.id, true) == r.0
    ensures r.0.Ok? && indexUp ==> Index(r.1, user) == Add(Index(s, user), r.0.value.id, now)
    ensures r.0.Ok? && !indexUp ==> r.1.users == s.users
    ensures forall other :: other != user ==> Index(r.1, other) == Index(s, other)
    ensures r.0.Ok? ==> forall k :: k != GetKey(r.0.value.id) ==>
      (k in r.1.hashes <==> k in s.hashes) && (k in s.hashes ==> r.1.hashes[k] == s.hashes[k])
    ensures r.0.Err? ==> r.1.users == s.users && r.1.hashes == s.hashes
    ensures r.1.urlCounter == s.urlCounter + 1 && r.1.userCounter == s.userCounter
  {
    var (res, s1) := Generate(enc, s, url, writeUp);
    match res
    case Ok(u) => (res, SaveForUser(s1, u.id, user, now, indexUp))
    case Err(_) => (res, s1)
  }

  /** The records of the listed codes, in list order, skipping codes that do not
      resolve. */
  function Resolve(s: Store, ids: seq<string>): (r: seq<Url>)
    ensures |r| <= |ids|
    ensures (forall m :: m in ids ==> Get(s, m, true).Ok?) ==>
      |r| == |ids| && forall i :: 0 <= i < |r| ==> Get(s, ids[i], true) == Ok(r[i])
    decreases |ids|
  {
    if |ids| == 0 then []
    else
      var rest := Resolve(s, ids[1..]);
      assert forall m :: m in ids[1..] ==> m in ids;
      match Get(s, ids[0], true)
      case Ok(u) => [u] + rest
      case Err(_) => rest
  }

  /** Where a record of a resolved list came from. */
  lemma {:induction false} ResolveSource(s: Store, ids: seq<string>, i: int) returns (p: nat)
    requires 0 <= i < |Resolve(s, ids)|
    ensures p < |ids| && Get(s, ids[p], true) == Ok(Resolve(s, ids)[i])
    decreases |ids|
  {
    var rest := Resolve(s, ids[1..]);
    match Get(s, ids[0], true)
    case Ok(u) =>
      if i == 0 {
        p := 0;
      } else {
        var p' := ResolveSource(s, ids[1..], i - 1);
        p := p' + 1;
      }
    case Err(_) =>
      var p' := ResolveSource(s, ids[1..], i);
      p := p' + 1;
  }

  /** Two records of a resolved list keep the order of the codes they came from. */
  lemma {:induction false} ResolveKeepsOrder(s: Store, ids: seq<string>, i: int, j: int) returns (p: nat, q: nat)
    requires 0 <= i < j < |Resolve(s, ids)|
    ensures p < q < |ids|
    ensures Get(s, ids[p], true) == Ok(Resolve(s, ids)[i])
    ensures Get(s, ids[q], true) == Ok(Resolve(s, ids)[j])
    decreases |ids|
  {
    ResolveStep(s, ids);
    if Get(s, ids[0], true).Ok? {
      if i == 0 {
        var q' := ResolveSource(s, ids[1..], j - 1);
        p, q := 0, q' + 1;
      } else {
        var p', q' := ResolveKeepsOrder(s, ids[1..], i - 1, j - 1);
        p, q := p' + 1, q' + 1;
      }
    } else {
      var p', q' := ResolveKeepsOrder(s, ids[1..], i, j);
      p, q := p' + 1, q' + 1;
    }
  }

  /** Only codes that resolve contribute records. */
  lemma ResolveSound(s: Store, ids: seq<string>)
    ensures forall u :: u in Resolve(s, ids) ==> exists m :: m in ids && Get(s, m, true) == Ok(u)
  {
    forall u | u in Resolve(s, ids) ensures exists m :: m in ids && Get(s, m, true) == Ok(u) {
      var i :| 0 <= i < |Resolve(s, ids)| && Resolve(s, ids)[i] == u;
      var p := ResolveSource(s, ids, i);
      assert ids[p] in ids;
    }
  }

  /** Only codes that do not resolve are dropped. */
  lemma {:induction false} ResolveComplete(s: Store, ids: seq<string>)
    ensures forall m :: m in ids && Get(s, m, true).Ok? ==> Get(s, m, true).value in Resolve(s, ids)
    decreases |ids|
  {
    if |ids| > 0 {
      ResolveStep(s, ids);
      ResolveComplete(s, ids[1..]);
      forall m | m in ids && Get(s, m, true).Ok? ensures Get(s, m, true).value in Resolve(s, ids) {
        if m != ids[0] {
          assert m in ids[1..];
        }
      }
    }
  }

  /** One step of Resolve: the head is kept exactly when it resolves. */
  lemma ResolveStep(s: Store, ids: seq<string>)
    requires |ids| > 0
    ensures Get(s, ids[0], true).Ok? ==> Resolve(s, ids) == [Get(s, ids[0], true).value] + Resolve(s, ids[1..])
    ensures Get(s, ids[0], true).Err? ==> Resolve(s, ids) == Resolve(s, ids[1..])
  {
  }

  /** get_last_n_for_user as written: ZREVRANGE user 0 (n - 1), then a get per code.
      A failed round trip yields the empty list. With Redis's reading of a negative
      stop index, n <= 0 does not yield at most n records. */
  function GetLastNForUserAsWritten(s: Store, user: string, n: int, up: bool): (r: seq<Url>)
    ensures !up ==> r == []
    ensures |r| <= |Index(s, user)|
    ensures n > 0 ==> |r| <= n
    ensures forall u :: u in r ==> exists m :: m in Members(Index(s, user)) && Get(s, m, true) == Ok(u)
  {
    if !up then []
    else
      var ids := RevRange(Index(s, user), 0, n - 1);
      ResolveSound(s, ids);
      Resolve(s, ids)
  }

  /** With n = 0 the as-written listing returns the whole history rather than
      nothing, as soon as the history holds a code that resolves. */
  lemma LastZeroReturnsEverything(s: Store, user: string)
    requires |Index(s, user)| > 0
    requires forall m :: m in Members(Index(s, user)) ==> Get(s, m, true).Ok?
    ensures |GetLastNForUserAsWritten(s, user, 0, true)| == |Index(s, user)| > 0
  {
    var ids := RevRange(Index(s, user), 0, -1);
    assert |ids| == |Index(s, user)|;
  }

  /** get_last_n_for_user with the intended bound: at most n records, none for
      n <= 0; otherwise as written. */
  function GetLastNForUser(s: Store, user: string, n: int, up: bool): (r: seq<Url>)
    ensures |r| <= Max(n, 0)
    ensures |r| <= |Index(s, user)|
    ensures !up ==> r == []
    ensures forall u :: u in r ==> exists m :: m in Members(Index(s, user)) && Get(s, m, true) == Ok(u)
    ensures up && n > 0 ==> forall m :: m in RevRange(Index(s, user), 0, n - 1) && Get(s, m, true).Ok? ==>
      Get(s, m, true).value in r
    ensures n > 0 ==> r == GetLastNForUserAsWritten(s, user, n, up)
  {
    if n <= 0 then []
    else
      ResolveComplete(s, RevRange(Index(s, user), 0, n - 1));
      GetLastNForUserAsWritten(s, user, n, up)
  }
}
