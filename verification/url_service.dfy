/** The URL service: delegation to the repository, plus its one rule of its own,
    a visit is counted only when the lookup succeeds. */
module UrlService {
  import opened Types
  import Repo = RedisUrlRepo

  function Shorten(enc: Repo.Encoder, s: Repo.Store, url: string, user: string, now: nat,
                   writeUp: bool, indexUp: bool): (r: (Result<Url>, Repo.Store))
    ensures r == Repo.GenerateForUser(enc, s, url, user, now, writeUp, indexUp)
    ensures r.0.Ok? ==> r.0.value.url == url && r.0.value.count == 0
    ensures r.0.Ok? ==> Repo.Get(r.1, r.0.value.id, true) == r.0
  {
    Repo.GenerateForUser(enc, s, url, user, now, writeUp, indexUp)
  }

  /** Looks the code up; on success increments its count once and returns the
      record as read, the outcome of the increment being ignored. On failure
      nothing is incremented. */
  function Get(s: Repo.Store, id: string, readUp: bool, incrementUp: bool): (r: (Result<Url>, Repo.Store))
    ensures r.0 == Repo.Get(s, id, readUp)
    ensures r.0.Err? ==> r.1 == s
    ensures r.0.Ok? ==> forall stringReply :: r.1 == Repo.IncrementCounter(s, id, incrementUp, stringReply).1
    ensures r.0.Ok? && incrementUp ==>
      Repo.Get(r.1, id, true) == Ok(Url(r.0.value.id, r.0.value.url, r.0.value.count + 1))
    ensures r.0.Ok? && !incrementUp ==> r.1 == s
  {
    match Repo.Get(s, id, readUp)
    case Ok(u) =>
      // The reply is dropped, so whether it converts does not matter.
      var (_, s') := Repo.IncrementCounter(s, id, incrementUp, false);
      assert forall stringReply :: s' == Repo.IncrementCounter(s, id, incrementUp, stringReply).1 by {
        Repo.IncrementStoreIgnoresReply(s, id, incrementUp);
      }
      (Ok(u), s')
    case Err(e) => (Err(e), s)
  }

  function NewUser(enc: Repo.Encoder, s: Repo.Store, up: bool): (r: (Result<string>, Repo.Store))
    ensures r == Repo.NewUser(enc, s, up)
    ensures r.1.urlCounter == s.urlCounter && r.1.hashes == s.hashes && r.1.users == s.users
  {
    Repo.NewUser(enc, s, up)
  }

  /** Passes the repository's listing on as it is written, so n <= 0 is not
      bounded; for n > 0 it is the corrected listing. */
  function GetLastNForUser(s: Repo.Store, user: string, n: int, up: bool): (r: seq<Url>)
    ensures r == Repo.GetLastNForUserAsWritten(s, user, n, up)
    ensures n > 0 ==> |r| <= n
    ensures n > 0 ==> r == Repo.GetLastNForUser(s, user, n, up)
  {
    Repo.GetLastNForUserAsWritten(s, user, n, up)
  }

  /** A link shortened and then visited: the visit returns what was created, with
      count 0, and the stored count is then 1. */
  lemma ShortenThenVisit(enc: Repo.Encoder, s: Repo.Store, url: string, user: string, now: nat, indexUp: bool)
    ensures var (created, s1) := Shorten(enc, s, url, user, now, true, indexUp);
      created.Ok? &&
      var (visited, s2) := Get(s1, created.value.id, true, true);
      && visited == created
      && visited.value.url == url && visited.value.count == 0
      && Repo.Get(s2, created.value.id, true) == Ok(Url(created.value.id, url, 1))
  {
  }

  /** Visits of a code that was never created fail and change nothing. */
  lemma VisitUnknownFails(s: Repo.Store, id: string, readUp: bool, incrementUp: bool)
    requires Repo.GetKey(id) !in s.hashes
    ensures Get(s, id, readUp, incrementUp) == (Err(UrlError), s)
  {
  }
}
