/** The pure helpers of the HTTP layer: the public short link of a code and the
    JSON shape of a record. The domain, read from the environment by the
    original, is a parameter. */
module Api {
  import opened Types
  import opened Strings

  const LocalPrefix: string := "localhost"

  /** Plain http for a local development host, https otherwise. */
  function Scheme(domain: string): string {
    if StartsWith(domain, LocalPrefix) then "http://" else "https://"
  }

  function BuildUrl(domain: string, id: string): (r: string)
    ensures StartsWith(domain, LocalPrefix) ==> r == "http://" + domain + "/" + id
    ensures !StartsWith(domain, LocalPrefix) ==> r == "https://" + domain + "/" + id
    ensures EndsWith(r, "/" + id)
  {
    Scheme(domain) + domain + "/" + id
  }

  function Serialize(domain: string, u: Url): (r: ResponseUrl)
    ensures r.id == u.id && r.longUrl == u.url && r.count == u.count
    ensures r.shortUrl == BuildUrl(domain, u.id)
    ensures EndsWith(r.shortUrl, "/" + u.id)
  {
    ResponseUrl(u.id, BuildUrl(domain, u.id), u.url, u.count)
  }

  /** What the `/{id}` route matches: one non-empty path segment. A `?` or `#`
      would end the path of the link, so neither may occur in it either. */
  predicate IsRouteSegment(id: string) {
    |id| > 0 && '/' !in id && '?' !in id && '#' !in id
  }

  /** The code the `/{id}` route reads out of a short link of this domain: the
      part after the domain's link prefix, when it is one path segment. */
  function IdOfShortUrl(domain: string, link: string): (r: Option<string>)
    ensures r.Some? ==> BuildUrl(domain, r.value) == link && IsRouteSegment(r.value)
  {
    var prefix := Scheme(domain) + domain + "/";
    if StartsWith(link, prefix) && IsRouteSegment(link[|prefix|..]) then
      assert link == prefix + link[|prefix|..];
      Some(link[|prefix|..])
    else None
  }

  /** A built link leads back to its code exactly when the code is a single path
      segment; any other code gives a link the route does not match. */
  lemma {:induction false} ShortUrlRoundTrip(domain: string, id: string)
    ensures IdOfShortUrl(domain, BuildUrl(domain, id)) == (if IsRouteSegment(id) then Some(id) else None)
  {
    var prefix := Scheme(domain) + domain + "/";
    assert BuildUrl(domain, id) == prefix + id;
    assert BuildUrl(domain, id)[..|prefix|] == prefix;
    assert BuildUrl(domain, id)[|prefix|..] == id;
  }

  /** Distinct codes get distinct short links. */
  lemma BuildUrlInjective(domain: string, a: string, b: string)
    requires BuildUrl(domain, a) == BuildUrl(domain, b)
    ensures a == b
  {
    var prefix := Scheme(domain) + domain + "/";
    assert BuildUrl(domain, a) == prefix + a && BuildUrl(domain, b) == prefix + b;
    assert a == (prefix + a)[|prefix|..];
  }

  /** The link is plain http exactly when the domain is a local host. */
  lemma PlainHttpIffLocal(domain: string, id: string)
    ensures StartsWith(BuildUrl(domain, id), "http://") <==> StartsWith(domain, LocalPrefix)
  {
    var link := BuildUrl(domain, id);
    if !StartsWith(domain, LocalPrefix) {
      assert link[4] == 's';
    }
  }
}
