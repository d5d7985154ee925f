/** The short link of a record, as the BuildUrl trait gives it. */
module Utils {
  import opened Types
  import opened Strings
  import Api

  function BuildUrl(u: Url, domain: string): (r: string)
    ensures r == Api.BuildUrl(domain, u.id)
    ensures StartsWith(domain, "localhost") ==> r == "http://" + domain + "/" + u.id
    ensures !StartsWith(domain, "localhost") ==> r == "https://" + domain + "/" + u.id
  {
    var schema := if StartsWith(domain, "localhost") then "http://" else "https://";
    schema + domain + "/" + u.id
  }

  /** Only the code matters: not the target, not the count. */
  lemma BuildUrlOnlyReadsId(u: Url, v: Url, domain: string)
    requires u.id == v.id
    ensures BuildUrl(u, domain) == BuildUrl(v, domain)
  {
  }
}
