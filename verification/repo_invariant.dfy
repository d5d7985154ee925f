/** The invariant the repository's operations keep on the store, and the
    properties that rest on it: fresh codes, records found under their own code,
    and a history listed most recent first. */
module RepoInvariant {
  import opened Types
  import opened SortedSet
  import opened RedisUrlRepo

  /** `code` is the encoding of a counter value handed out so far. */
  ghost predicate Issued(enc: Encoder, counter: nat, code: string) {
    exists i: nat :: 1 <= i <= counter && enc(i) == code
  }

  /** Every complete record sits under the key of its own code, which was issued;
      every history is a valid sorted set; every code in a history resolves. */
  ghost predicate Wf(enc: Encoder, s: Store) {
    && (forall k :: k in s.hashes && s.hashes[k].Complete? ==>
          k == GetKey(s.hashes[k].record.id) && Issued(enc, s.urlCounter, s.hashes[k].record.id))
    && (forall uk :: uk in s.users ==> Valid(s.users[uk]))
    && (forall uk, m :: uk in s.users && m in Members(s.users[uk]) ==> Get(s, m, true).Ok?)
  }

  lemma EmptyStoreWf(enc: Encoder)
    ensures Wf(enc, EmptyStore)
  {
  }

  lemma IndexValid(enc: Encoder, s: Store, user: string)
    requires Wf(enc, s)
    ensures Valid(Index(s, user))
    ensures forall m :: m in Members(Index(s, user)) ==> Get(s, m, true).Ok?
  {
  }

  /** A record found under a code carries that code. */
  lemma StoredIdMatches(enc: Encoder, s: Store, id: string)
    requires Wf(enc, s) && Get(s, id, true).Ok?
    ensures Get(s, id, true).value.id == id
  {
    KeysInjective(id, Get(s, id, true).value.id);
  }

  /** The code the next allocation hands out is new: no record resolves under it
      and no history holds it. */
  lemma NextCodeIsFresh(enc: Encoder, s: Store, user: string)
    requires Injective(enc) && Wf(enc, s)
    ensures Get(s, GetNextKey(enc, s).0, true).Err?
    ensures GetNextKey(enc, s).0 !in Members(Index(s, user))
  {
    var code := GetNextKey(enc, s).0;
    forall k | k in s.hashes && s.hashes[k].Complete? ensures s.hashes[k].record.id != code {
      var i: nat :| 1 <= i <= s.urlCounter && enc(i) == s.hashes[k].record.id;
    }
    forall x ensures GetKey(code) == GetKey(x) ==> x == code {
      KeysInjective(code, x);
    }
  }

  lemma GenerateKeepsWf(enc: Encoder, s: Store, url: string, up: bool)
    requires Wf(enc, s)
    ensures Wf(enc, Generate(enc, s, url, up).1)
  {
    var (r, s') := Generate(enc, s, url, up);
    forall k | k in s'.hashes && s'.hashes[k].Complete?
      ensures k == GetKey(s'.hashes[k].record.id) && Issued(enc, s'.urlCounter, s'.hashes[k].record.id)
    {
      if r.Ok? && k == GetKey(r.value.id) {
        assert s'.hashes[k].record == r.value;
        assert enc(s'.urlCounter) == r.value.id;
      } else {
        var i: nat :| 1 <= i <= s.urlCounter && enc(i) == s.hashes[k].record.id;
        assert 1 <= i <= s'.urlCounter;
      }
    }
    forall uk, m | uk in s'.users && m in Members(s'.users[uk]) ensures Get(s', m, true).Ok? {
      assert Get(s, m, true).Ok?;
    }
  }

  lemma IncrementCounterKeepsWf(enc: Encoder, s: Store, id: string, up: bool, stringReply: bool)
    requires Wf(enc, s)
    ensures Wf(enc, IncrementCounter(s, id, up, stringReply).1)
  {
    var s' := IncrementCounter(s, id, up, stringReply).1;
    forall uk, m | uk in s'.users && m in Members(s'.users[uk]) ensures Get(s', m, true).Ok? {
      assert Get(s, m, true).Ok?;
    }
  }

  lemma NewUserKeepsWf(enc: Encoder, s: Store, up: bool)
    requires Wf(enc, s)
    ensures Wf(enc, NewUser(enc, s, up).1)
  {
    var s' := NewUser(enc, s, up).1;
    assert s'.hashes == s.hashes && s'.users == s.users;
    forall m ensures Get(s', m, true) == Get(s, m, true) {
    }
  }

  lemma SaveForUserKeepsWf(enc: Encoder, s: Store, id: string, user: string, now: nat, up: bool)
    requires Wf(enc, s) && Get(s, id, true).Ok?
    ensures Wf(enc, SaveForUser(s, id, user, now, up))
  {
    var s' := SaveForUser(s, id, user, now, up);
    forall m ensures Get(s', m, true) == Get(s, m, true) {
    }
    if up {
      IndexValid(enc, s, user);
      forall uk | uk in s'.users ensures Valid(s'.users[uk]) {
        if uk != GetUserKey(user) {
          assert s'.users[uk] == s.users[uk];
        }
      }
      forall uk, m | uk in s'.users && m in Members(s'.users[uk]) ensures Get(s', m, true).Ok? {
        if uk != GetUserKey(user) {
          assert s'.users[uk] == s.users[uk];
        } else if m != id {
          assert m in Members(Index(s, user));
        }
      }
    }
  }

  lemma GenerateForUserKeepsWf(enc: Encoder, s: Store, url: string, user: string, now: nat,
                               writeUp: bool, indexUp: bool)
    requires Wf(enc, s)
    ensures Wf(enc, GenerateForUser(enc, s, url, user, now, writeUp, indexUp).1)
  {
    var (r, s1) := Generate(enc, s, url, writeUp);
    GenerateKeepsWf(enc, s, url, writeUp);
    if r.Ok? {
      SaveForUserKeepsWf(enc, s1, r.value.id, user, now, indexUp);
    }
  }

  /** Generate never overwrites a record: the code it stores did not resolve before. */
  lemma GenerateNeverOverwrites(enc: Encoder, s: Store, url: string, up: bool)
    requires Injective(enc) && Wf(enc, s)
    ensures Generate(enc, s, url, up).0.Ok? ==> Get(s, Generate(enc, s, url, up).0.value.id, true).Err?
  {
    NextCodeIsFresh(enc, s, "");
  }

  /** In a well-formed store every code in a history resolves, so the listing
      drops nothing: it is the top min(n, size) codes, most recent first. */
  lemma LastNDropsNothing(enc: Encoder, s: Store, user: string, n: int)
    requires Wf(enc, s) && n > 0
    ensures var r := GetLastNForUser(s, user, n, true);
      var z := Index(s, user);
      |r| == Min(n, |z|) && forall i :: 0 <= i < |r| ==> r[i].id == z[|z| - 1 - i].member
  {
    var z := Index(s, user);
    IndexValid(enc, s, user);
    var ids := RevRange(z, 0, n - 1);
    var r := Resolve(s, ids);
    assert forall m :: m in ids ==> Get(s, m, true).Ok?;
    forall i | 0 <= i < |r| ensures r[i].id == z[|z| - 1 - i].member {
      StoredIdMatches(enc, s, ids[i]);
    }
  }

  /** `a` ranks above `b`: `b`'s entry sorts below `a`'s, so its score is lower,
      or equal with a member that sorts before `a`. */
  ghost predicate Outranks(z: ZSet, a: string, b: string)
    requires a in Members(z) && b in Members(z)
  {
    && a != b
    && Below(Entry(b, ScoreOf(z, b)), Entry(a, ScoreOf(z, a)))
  }

  /** The listing runs from the highest score down; equal scores come in
      descending member order, and no code appears twice. */
  lemma LastNDescending(enc: Encoder, s: Store, user: string, n: int, up: bool)
    requires Wf(enc, s)
    ensures var r := GetLastNForUser(s, user, n, up);
      var z := Index(s, user);
      forall i, j :: 0 <= i < j < |r| ==>
        r[i].id in Members(z) && r[j].id in Members(z) && Outranks(z, r[i].id, r[j].id)
  {
    var r := GetLastNForUser(s, user, n, up);
    var z := Index(s, user);
    forall i, j | 0 <= i < j < |r|
      ensures r[i].id in Members(z) && r[j].id in Members(z) && Outranks(z, r[i].id, r[j].id)
    {
      LastNPairDescending(enc, s, user, n, up, i, j);
    }
  }

  lemma LastNPairDescending(enc: Encoder, s: Store, user: string, n: int, up: bool, i: int, j: int)
    requires Wf(enc, s)
    requires 0 <= i < j < |GetLastNForUser(s, user, n, up)|
    ensures var r := GetLastNForUser(s, user, n, up);
      var z := Index(s, user);
      r[i].id in Members(z) && r[j].id in Members(z) && Outranks(z, r[i].id, r[j].id)
  {
    var r := GetLastNForUser(s, user, n, up);
    var z := Index(s, user);
    IndexValid(enc, s, user);
    var ids := RevRange(z, 0, n - 1);
    assert r == Resolve(s, ids);
    var p, q := ResolveKeepsOrder(s, ids, i, j);
    StoredIdMatches(enc, s, ids[p]);
    StoredIdMatches(enc, s, ids[q]);
    var kp, kq := |z| - 1 - p, |z| - 1 - q;
    ScoreOfEntry(z, kp);
    ScoreOfEntry(z, kq);
    assert Below(z[kq], z[kp]);
    BelowIrreflexive(z[kp]);
  }

  /** One creation for a user, later than everything in that user's history,
      lands on top of the history and leaves every resolving code as it was. */
  lemma CreationOnTop(enc: Encoder, s: Store, url: string, user: string, now: nat)
    requires Injective(enc) && Wf(enc, s)
    requires forall e :: e in Index(s, user) ==> e.score < now
    ensures var (r, s') := GenerateForUser(enc, s, url, user, now, true, true);
      && r.Ok? && Wf(enc, s')
      && Get(s', r.value.id, true) == r
      && Get(s, r.value.id, true).Err?
      && Index(s', user) == Index(s, user) + [Entry(r.value.id, now)]
      && forall m :: Get(s, m, true).Ok? ==> Get(s', m, true) == Get(s, m, true)
  {
    var (g, t) := Generate(enc, s, url, true);
    NextCodeIsFresh(enc, s, user);
    AddOnTop(Index(s, user), g.value.id, now);
    GenerateForUserKeepsWf(enc, s, url, user, now, true, true);
    var s' := GenerateForUser(enc, s, url, user, now, true, true).1;
    forall m | Get(s, m, true).Ok? ensures Get(s', m, true) == Get(s, m, true) {
      KeysInjective(m, g.value.id);
    }
  }

  /** Two links created one after the other for the same user, later than anything
      already in that user's history, are listed newest first. */
  lemma LastTwoAfterTwoCreations(enc: Encoder, s: Store, user: string, url1: string, url2: string,
                                 now1: nat, now2: nat)
    requires Injective(enc) && Wf(enc, s)
    requires now1 < now2
    requires forall e :: e in Index(s, user) ==> e.score < now1
    ensures var (r1, s1) := GenerateForUser(enc, s, url1, user, now1, true, true);
      var (r2, s2) := GenerateForUser(enc, s1, url2, user, now2, true, true);
      r1.Ok? && r2.Ok? && GetLastNForUser(s2, user, 2, true) == [r2.value, r1.value]
  {
    var (r1, s1) := GenerateForUser(enc, s, url1, user, now1, true, true);
    CreationOnTop(enc, s, url1, user, now1);
    var (r2, s2) := GenerateForUser(enc, s1, url2, user, now2, true, true);
    CreationOnTop(enc, s1, url2, user, now2);
    ListTopTwo(s2, user, Index(s, user), r1.value, r2.value, now1, now2);
  }

  /** A history ending in two codes that resolve lists their records, the last
      first. */
  lemma ListTopTwo(s: Store, user: string, z: ZSet, u1: Url, u2: Url, score1: int, score2: int)
    requires Index(s, user) == z + [Entry(u1.id, score1)] + [Entry(u2.id, score2)]
    requires Get(s, u1.id, true) == Ok(u1) && Get(s, u2.id, true) == Ok(u2)
    ensures GetLastNForUser(s, user, 2, true) == [u2, u1]
  {
    var ids := RevRange(Index(s, user), 0, 1);
    assert ids == [u2.id, u1.id];
    ResolveStep(s, ids);
    ResolveStep(s, ids[1..]);
  }

  /** Two successive allocations hand out different codes. */
  lemma SuccessiveKeysDiffer(enc: Encoder, s: Store)
    requires Injective(enc)
    ensures GetNextKey(enc, s).0 != GetNextKey(enc, GetNextKey(enc, s).1).0
  {
    assert GetNextKey(enc, s).0 == enc(s.urlCounter + 1);
    assert GetNextKey(enc, GetNextKey(enc, s).1).0 == enc(s.urlCounter + 2);
  }

  /** Any number of successive allocations hand out pairwise different codes, all
      from counter values above the one before the first call. */
  lemma AllocatedKeysDistinct(enc: Encoder, s: Store, k: nat)
    requires Injective(enc)
    ensures var codes := NextKeys(enc, s, k).0;
      forall i, j :: 0 <= i < j < k ==> codes[i] != codes[j]
    ensures var codes := NextKeys(enc, s, k).0;
      forall i :: 0 <= i < k ==> exists c: nat :: c > s.urlCounter && codes[i] == enc(c)
  {
    var codes := NextKeys(enc, s, k).0;
    forall i | 0 <= i < k ensures exists c: nat :: c > s.urlCounter && codes[i] == enc(c) {
      assert codes[i] == enc(s.urlCounter + 1 + i);
    }
  }

  /** Two successive user creations that get through hand out different users. */
  lemma SuccessiveUsersDiffer(enc: Encoder, s: Store)
    requires Injective(enc)
    ensures var (u1, s1) := NewUser(enc, s, true);
      var (u2, s2) := NewUser(enc, s1, true);
      u1.Ok? && u2.Ok? && u1.value != u2.value
      && s2.urlCounter == s.urlCounter && s2.hashes == s.hashes && s2.users == s.users
  {
    assert NewUser(enc, s, true).0.value == enc(s.userCounter + 1);
    assert NewUser(enc, NewUser(enc, s, true).1, true).0.value == enc(s.userCounter + 2);
  }

  /** After k increments that all get through, the count has grown by exactly k. */
  lemma {:induction false} IncrementManyAddsK(s: Store, id: string, k: nat)
    requires Get(s, id, true).Ok?
    ensures var u := Get(s, id, true).value;
      Get(IncrementMany(s, id, k), id, true) == Ok(Url(u.id, u.url, u.count + k))
    decreases k
  {
    if k > 0 {
      IncrementManyAddsK(IncrementCounter(s, id, true, true).1, id, k - 1);
    }
  }

  /** Creating a link and reading it back gives the same record. */
  lemma GenerateThenGet(enc: Encoder, s: Store, url: string)
    ensures var (r, s') := Generate(enc, s, url, true);
      r.Ok? && Get(s', r.value.id, true) == Ok(Url(r.value.id, url, 0))
  {
  }

  /** A code that was never stored fails to resolve. */
  lemma GetUnknownFails(s: Store, id: string, up: bool)
    requires GetKey(id) !in s.hashes
    ensures Get(s, id, up) == Err(UrlError)
  {
  }
}
